/**
  The shape every descriptor table keeps: one tree rooted at slot 0 despite
  slot reuse, unique identifiers, and disjoint extents under the bump pointer.
 */
module TreeInvariant {
  import opened Bytes
  import opened FsTypes
  import opened FsStore
  import opened FileTree

  // ---------------------------------------------------------------- the tree

  ghost predicate IsRoot(s: Slot) {
    && s.Live? && s.desc.ftype == TYPE_MF && s.desc.fid == FID_MF
    && s.desc.lc == LC_ACTIVATED && s.desc.parent == NO_PARENT && s.desc.sfi == NO_SFI
  }

  /** Slot p can hold files: a live, activated MF or DF. */
  ghost predicate IsOpenDf(t: seq<Slot>, p: nat) {
    p < |t| && t[p].Live? && t[p].desc.IsDf() && t[p].desc.Usable()
  }

  /** What any file but the root looks like. */
  ghost predicate IsFile(t: seq<Slot>, s: Slot) {
    s.Live? ==>
      && (s.desc.ftype == TYPE_DF || s.desc.ftype == TYPE_EF)
      && !ReservedFid(s.desc.fid)
      && IsOpenDf(t, s.desc.parent)
      && (s.desc.ftype == TYPE_DF ==> s.desc.size == 0 && s.desc.sfi == NO_SFI)
      && (s.desc.ftype == TYPE_EF ==> 0 < s.desc.size <= MAX_EF_SIZE && s.desc.sfi <= 30)
  }

  /** The parent chain of slot i reaches the root in exactly n links. */
  ghost predicate Reaches(t: seq<Slot>, i: nat, n: nat)
    decreases n
  {
    if n == 0 then i == 0
    else 0 < i < |t| && t[i].Live? && Reaches(t, t[i].desc.parent, n - 1)
  }

  ghost predicate Rooted(t: seq<Slot>, i: nat) {
    exists n: nat :: Reaches(t, i, n)
  }

  ghost predicate AllRooted(t: seq<Slot>) {
    forall i | 0 <= i < |t| && t[i].Live? :: Rooted(t, i)
  }

  /** Two siblings with the same identifier, or the same short identifier. */
  ghost predicate Clash(a: Slot, b: Slot) {
    && a.Live? && b.Live? && a.desc.parent == b.desc.parent
    && (a.desc.fid == b.desc.fid || (a.desc.sfi != NO_SFI && a.desc.sfi == b.desc.sfi))
  }

  ghost predicate Tree(t: seq<Slot>) {
    && |t| == MAX_FILES
    && IsRoot(t[0])
    && (forall i | 0 <= i < |t| :: !t[i].Corrupt?)
    && (forall i | 0 < i < |t| :: IsFile(t, t[i]))
    && AllRooted(t)
    && (forall i, j | 0 <= i < j < |t| :: !Clash(t[i], t[j]))
  }

  // ------------------------------------------------------------ chain length

  lemma {:induction false} SameLength(t: seq<Slot>, i: nat, m: nat, n: nat)
    requires Reaches(t, i, m) && Reaches(t, i, n)
    ensures m == n
    decreases n
  {
    if m > 0 && n > 0 {
      SameLength(t, t[i].desc.parent, m - 1, n - 1);
    }
  }

  /** The slots a chain passes through. */
  ghost function Chain(t: seq<Slot>, i: nat, n: nat): set<nat>
    requires Reaches(t, i, n)
    decreases n
  {
    if n == 0 then {i} else {i} + Chain(t, t[i].desc.parent, n - 1)
  }

  lemma {:induction false} ChainMembers(t: seq<Slot>, i: nat, n: nat, j: nat)
    requires Reaches(t, i, n) && j in Chain(t, i, n)
    ensures exists m: nat :: m <= n && Reaches(t, j, m)
    decreases n
  {
    if n > 0 && j != i {
      ChainMembers(t, t[i].desc.parent, n - 1, j);
      var m: nat :| m <= n - 1 && Reaches(t, j, m);
      assert m <= n && Reaches(t, j, m);
    }
  }

  lemma {:induction false} ChainSize(t: seq<Slot>, i: nat, n: nat)
    requires |t| > 0 && Reaches(t, i, n)
    ensures |Chain(t, i, n)| == n + 1
    ensures forall j | j in Chain(t, i, n) :: j < |t|
    decreases n
  {
    if n > 0 {
      var p := t[i].desc.parent;
      ChainSize(t, p, n - 1);
      if i in Chain(t, p, n - 1) {
        ChainMembers(t, p, n - 1, i);
        var m: nat :| m <= n - 1 && Reaches(t, i, m);
        SameLength(t, i, m, n);
      }
    }
  }

  lemma {:induction false} BelowBound(s: set<nat>, n: nat)
    requires forall j | j in s :: j < n
    ensures |s| <= n
  {
    if n > 0 {
      var r := s - {n - 1};
      BelowBound(r, n - 1);
      assert s <= r + {n - 1};
      assert |s| <= |r| + 1;
    } else {
      assert s == {};
    }
  }

  /** No chain is as long as the table: there are no cycles, whatever slots were reused. */
  lemma ChainsAreShort(t: seq<Slot>, i: nat, n: nat)
    requires |t| > 0 && Reaches(t, i, n)
    ensures n < |t|
  {
    ChainSize(t, i, n);
    BelowBound(Chain(t, i, n), |t|);
  }

  // ------------------------------------------------------------ preservation

  /** Filling a slot that was free leaves every chain as it was. */
  lemma {:induction false} ReachesFilled(t: seq<Slot>, k: nat, s: Slot, i: nat, n: nat)
    requires k < |t| && !t[k].Live? && Reaches(t, i, n)
    ensures Reaches(t[k := s], i, n)
    decreases n
  {
    if n > 0 {
      ReachesFilled(t, k, s, t[i].desc.parent, n - 1);
    }
  }

  /** Freeing a slot that has no children leaves every other chain as it was. */
  lemma {:induction false} ReachesFreed(t: seq<Slot>, k: nat, i: nat, n: nat)
    requires k < |t| && i != k && Reaches(t, i, n)
    requires forall j | 0 <= j < |t| && t[j].Live? :: t[j].desc.parent != k
    ensures Reaches(t[k := Free], i, n)
    decreases n
  {
    if n > 0 {
      ReachesFreed(t, k, t[i].desc.parent, n - 1);
    }
  }

  lemma CreateKeepsRooted(t: seq<Slot>, k: nat, d: Desc)
    requires Tree(t) && k < |t| && t[k].Free? && IsOpenDf(t, d.parent)
    ensures AllRooted(t[k := Live(d)])
  {
    var t' := t[k := Live(d)];
    forall i | 0 <= i < |t| && t'[i].Live?
      ensures Rooted(t', i)
    {
      var j := if i == k then d.parent else i;
      assert Rooted(t, j);
      var n: nat :| Reaches(t, j, n);
      ReachesFilled(t, k, Live(d), j, n);
      if i == k {
        assert k != 0;
        assert Reaches(t', k, n + 1);
      }
    }
  }

  lemma CreateKeepsTree(t: seq<Slot>, k: nat, d: Desc)
    requires Tree(t) && k < |t| && t[k].Free? && IsFile(t, Live(d))
    requires forall i | 0 <= i < |t| :: !Clash(t[i], Live(d))
    ensures Tree(t[k := Live(d)])
  {
    var t' := t[k := Live(d)];
    assert forall p: nat | IsOpenDf(t, p) :: IsOpenDf(t', p);
    CreateKeepsRooted(t, k, d);
    hide AllRooted;
    forall i, j | 0 <= i < j < |t|
      ensures !Clash(t'[i], t'[j])
    {
      if i == k {
        assert !Clash(t[j], Live(d));
      } else if j == k {
        assert !Clash(t[i], Live(d));
      } else {
        assert !Clash(t[i], t[j]);
      }
    }
  }

  lemma DeleteKeepsTree(t: seq<Slot>, k: nat)
    requires Tree(t) && 0 < k < |t|
    requires forall j | 0 <= j < |t| && t[j].Live? :: t[j].desc.parent != k
    ensures Tree(t[k := Free])
  {
    var t' := t[k := Free];
    assert forall p: nat | IsOpenDf(t, p) && p != k :: IsOpenDf(t', p);
    forall i | 0 < i < |t|
      ensures IsFile(t', t'[i])
    {
      assert IsFile(t, t[i]);
    }
    forall i | 0 <= i < |t| && t'[i].Live?
      ensures Rooted(t', i)
    {
      assert Rooted(t, i);
      var n: nat :| Reaches(t, i, n);
      ReachesFreed(t, k, i, n);
    }
    forall i, j | 0 <= i < j < |t|
      ensures !Clash(t'[i], t'[j])
    {
      assert !Clash(t[i], t[j]);
    }
  }

  // ----------------------------------------------------------------- extents

  ghost predicate Apart(a: Slot, b: Slot) {
    a.Live? && b.Live? && a.desc.IsEf() && b.desc.IsEf() ==>
      a.desc.off + a.desc.size <= b.desc.off || b.desc.off + b.desc.size <= a.desc.off
  }

  ghost predicate Below(s: Slot, top: nat) {
    s.Live? && s.desc.IsEf() ==> s.desc.off + s.desc.size <= top
  }

  /** Live EF extents lie below the bump pointer and do not overlap. */
  ghost predicate Extents(t: seq<Slot>, top: nat, flashSize: nat) {
    && top <= flashSize
    && (forall i | 0 <= i < |t| :: Below(t[i], top))
    && (forall i, j | 0 <= i < j < |t| :: Apart(t[i], t[j]))
  }

  lemma RaiseKeepsExtents(t: seq<Slot>, top: nat, top': nat, flashSize: nat)
    requires Extents(t, top, flashSize) && top <= top' <= flashSize
    ensures Extents(t, top', flashSize)
  {}

  lemma CreateKeepsExtents(t: seq<Slot>, top: nat, flashSize: nat, k: nat, d: Desc)
    requires Extents(t, top, flashSize) && k < |t|
    requires d.IsEf() ==> d.off == top && top + d.size <= flashSize
    ensures Extents(t[k := Live(d)], if d.IsEf() then top + d.size else top, flashSize)
  {
    var t' := t[k := Live(d)];
    forall i | 0 <= i < |t|
      ensures Below(t'[i], if d.IsEf() then top + d.size else top)
    {
      assert Below(t[i], top);
    }
    forall i, j | 0 <= i < j < |t|
      ensures Apart(t'[i], t'[j])
    {
      assert Below(t[i], top) && Below(t[j], top) && Apart(t[i], t[j]);
    }
  }

  lemma DeleteKeepsExtents(t: seq<Slot>, top: nat, flashSize: nat, k: nat)
    requires Extents(t, top, flashSize) && k < |t|
    ensures Extents(t[k := Free], top, flashSize)
  {
    var t' := t[k := Free];
    forall i | 0 <= i < |t|
      ensures Below(t'[i], top)
    {
      assert Below(t[i], top);
    }
    forall i, j | 0 <= i < j < |t|
      ensures Apart(t'[i], t'[j])
    {
      assert Apart(t[i], t[j]);
    }
  }

  // --------------------------------------------------------------- selection

  /** The current DF is open, and the current EF, if any, is an activated child of it. */
  ghost predicate SelectionFits(t: seq<Slot>, sel: Selection) {
    && IsOpenDf(t, sel.df)
    && (sel.ef != INVALID_INDEX ==>
          && sel.ef < |t| && t[sel.ef].Live? && t[sel.ef].desc.IsEf()
          && t[sel.ef].desc.Usable() && t[sel.ef].desc.parent == sel.df)
  }

  lemma ResetFits(t: seq<Slot>)
    requires Tree(t)
    ensures SelectionFits(t, Reset)
  {}

  lemma CommitFits(t: seq<Slot>, i: u16)
    requires Tree(t) && SelectIndex(t, i).Success?
    ensures SelectionFits(t, SelectIndex(t, i).value)
  {
    hide Rooted, Clash;
    assert i > 0 ==> IsFile(t, t[i]);
  }

  lemma SelectByFidFits(t: seq<Slot>, sel: Selection, fid: u16)
    requires Tree(t) && SelectByFid(t, sel, fid).Success?
    ensures SelectionFits(t, SelectByFid(t, sel, fid).value)
  {
    CommitFits(t, FidTarget(t, sel, fid).value);
  }

  lemma SelectChildFits(t: seq<Slot>, sel: Selection, fid: u16, wantDf: bool)
    requires Tree(t) && SelectChild(t, sel, fid, wantDf).Success?
    ensures SelectionFits(t, SelectChild(t, sel, fid, wantDf).value)
  {
    CommitFits(t, Child(t, sel.df, fid).value);
  }

  lemma SelectParentFits(t: seq<Slot>, sel: Selection)
    requires Tree(t) && SelectParent(t, sel).Success?
    ensures SelectionFits(t, SelectParent(t, sel).value)
  {
    CommitFits(t, ReadSlot(t, sel.df).value.parent);
  }

  lemma {:induction false} WalkFits(t: seq<Slot>, at: Selection, path: seq<byte>, s: nat)
    requires Tree(t) && SelectionFits(t, at) && 2 * s <= |path| && |path| % 2 == 0
    requires Walk(t, at, path, s).Success?
    ensures SelectionFits(t, Walk(t, at, path, s).value)
    decreases |path| - 2 * s
  {
    hide Tree, SelectionFits;
    if 2 * s < |path| {
      if s == 0 && HasFid(t, at.df, PathFid(path, 0)) {
        WalkFits(t, at, path, 1);
      } else {
        var fid := PathFid(path, s);
        TreeSize(t);
        CommitFits(t, Child(t, at.df, fid).value);
        WalkFits(t, WalkStep(t, at, fid, 2 * (s + 1) == |path|).value, path, s + 1);
      }
    }
  }

  lemma TreeSize(t: seq<Slot>)
    requires Tree(t)
    ensures |t| == MAX_FILES
  {}

  lemma CreateKeepsSelection(t: seq<Slot>, k: nat, d: Desc, sel: Selection)
    requires k < |t| && t[k].Free? && SelectionFits(t, sel)
    ensures SelectionFits(t[k := Live(d)], sel)
  {}

  /** Deleting a childless slot of the current DF: the root fallback is never needed. */
  lemma DeleteKeepsSelection(t: seq<Slot>, k: u16, sel: Selection)
    requires k < |t| && t[k].Live? && t[k].desc.parent == sel.df && k != sel.df
    requires SelectionFits(t, sel)
    ensures SelectionFits(t[k := Free], Deselect(sel, k))
    ensures Deselect(sel, k).df == sel.df
  {}
}
