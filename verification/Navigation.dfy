/**
  Navigation: every activated file is reached by its own chain of typed child
  selections and by nothing else, and selection by path is that descent.
 */
module Navigation {
  import opened Bytes
  import opened FsTypes
  import opened FileTree
  import opened SlotSearch
  import opened TreeInvariant

  /** Typed child selections in order: DFs all the way, the last one of the given type. */
  function Descend(t: seq<Slot>, at: Selection, fids: seq<u16>, lastDf: bool): Result<Selection>
    requires |t| <= MAX_FILES
    decreases |fids|
  {
    if fids == [] then Success(at)
    else match SelectChild(t, at, fids[0], |fids| > 1 || lastDf)
      case Failure(e) => Failure(e)
      case Success(next) => Descend(t, next, fids[1..], lastDf)
  }

  /** The identifiers on the way from the root down to slot i. */
  ghost function PathTo(t: seq<Slot>, i: nat, n: nat): (r: seq<u16>)
    requires Reaches(t, i, n)
    ensures |r| == n
    decreases n
  {
    if n == 0 then [] else PathTo(t, t[i].desc.parent, n - 1) + [t[i].desc.fid]
  }

  lemma {:induction false} DescendAppend(t: seq<Slot>, at: Selection, fids: seq<u16>, fid: u16, lastDf: bool)
    requires |t| <= MAX_FILES
    ensures Descend(t, at, fids + [fid], lastDf)
         == match Descend(t, at, fids, true)
            case Failure(e) => Failure(e)
            case Success(mid) => SelectChild(t, mid, fid, lastDf)
    decreases |fids|
  {
    hide SelectChild;
    if fids == [] {
      assert Descend(t, at, [fid][1..], lastDf) == Success(at);
      assert [] + [fid] == [fid];
    } else {
      assert (fids + [fid])[1..] == fids[1..] + [fid];
      if SelectChild(t, at, fids[0], true).Success? {
        DescendAppend(t, SelectChild(t, at, fids[0], true).value, fids[1..], fid, lastDf);
      }
    }
  }

  lemma ChildIs(t: seq<Slot>, i: nat)
    requires Tree(t) && 0 < i < |t| && t[i].Live?
    ensures Child(t, t[i].desc.parent, t[i].desc.fid) == Success(i)
    ensures IsOpenDf(t, t[i].desc.parent)
  {
    var q := ChildOf(t[i].desc.parent, t[i].desc.fid);
    hide First, AllRooted;
    forall j | 0 <= j < |t| && Answers(t[j], q)
      ensures j == i
    {
      assert !Clash(t[if i < j then i else j], t[if i < j then j else i]) || i == j;
    }
    FirstIsUnique(t, q, i);
    assert IsFile(t, t[i]);
  }

  /** Every activated file is reached by its own path. */
  lemma {:induction false} FileIsReached(t: seq<Slot>, i: u16, n: nat)
    requires Tree(t) && i < |t| && t[i].Live? && t[i].desc.Usable() && Reaches(t, i, n)
    ensures |t| <= MAX_FILES
    ensures Descend(t, Reset, PathTo(t, i, n), t[i].desc.IsDf()) == Success(Commit(i, t[i].desc))
    decreases n
  {
    hide AllRooted, Clash, First, IsFile, Descend;
    if n == 0 {
      NoDescent(t, t[i].desc.IsDf());
    } else {
      var p := t[i].desc.parent;
      ChildIs(t, i);
      FileIsReached(t, p, n - 1);
      DescendAppend(t, Reset, PathTo(t, p, n - 1), t[i].desc.fid, t[i].desc.IsDf());
    }
  }

  lemma NoDescent(t: seq<Slot>, lastDf: bool)
    requires |t| <= MAX_FILES
    ensures Descend(t, Reset, [], lastDf) == Success(Reset)
  {}

  /** The selection left by reaching slot i. */
  ghost predicate Reached(t: seq<Slot>, sel: Selection, fids: seq<u16>, i: nat, n: nat) {
    && i < |t| && i < 0x10000 && t[i].Live? && t[i].desc.Usable() && sel == Commit(i, t[i].desc)
    && Reaches(t, i, n) && PathTo(t, i, n) == fids
  }

  /** And only files are reached, each by its own path: from the DF at slot p downwards. */
  lemma {:induction false} DescentReaches(t: seq<Slot>, p: u16, m: nat, fids: seq<u16>, lastDf: bool)
    returns (i: nat)
    requires Tree(t) && IsOpenDf(t, p) && Reaches(t, p, m) && |t| <= MAX_FILES
    requires Descend(t, Selection(p, INVALID_INDEX), fids, lastDf).Success?
    ensures Reached(t, Descend(t, Selection(p, INVALID_INDEX), fids, lastDf).value, PathTo(t, p, m) + fids,
                    i, m + |fids|)
    ensures fids != [] ==> t[i].desc.IsDf() == lastDf
    decreases |fids|
  {
    hide First, Tree;
    if fids == [] {
      assert PathTo(t, p, m) + [] == PathTo(t, p, m);
      return p;
    }
    var c := Child(t, p, fids[0]).value;
    assert Answers(t[c], ChildOf(p, fids[0]));
    NotRoot(t, p, c);
    assert Reaches(t, c, m + 1);
    assert PathTo(t, c, m + 1) + fids[1..] == PathTo(t, p, m) + fids;
    if |fids| == 1 {
      assert Descend(t, Commit(c, t[c].desc), fids[1..], lastDf) == Success(Commit(c, t[c].desc));
      assert PathTo(t, c, m + 1) + [] == PathTo(t, c, m + 1);
      return c;
    }
    i := DescentReaches(t, c, m + 1, fids[1..], lastDf);
  }

  lemma NotRoot(t: seq<Slot>, p: nat, c: nat)
    requires Tree(t) && IsOpenDf(t, p) && c < |t| && t[c].Live? && t[c].desc.parent == p
    ensures c != 0
  {}

  // ------------------------------------------------------------- path select

  function PathFids(path: seq<byte>, s: nat): (r: seq<u16>)
    requires |path| % 2 == 0 && 2 * s <= |path|
    ensures |r| == |path| / 2 - s
    decreases |path| - 2 * s
  {
    if 2 * s == |path| then [] else [PathFid(path, s)] + PathFids(path, s + 1)
  }

  /** Selection x is the end of a descent whose last step is of either type. */
  ghost predicate DescendsTo(t: seq<Slot>, at: Selection, fids: seq<u16>, x: Selection)
    requires |t| <= MAX_FILES
  {
    Descend(t, at, fids, true) == Success(x) || Descend(t, at, fids, false) == Success(x)
  }

  lemma LastStep(t: seq<Slot>, at: Selection, fid: u16, x: Selection)
    requires |t| <= MAX_FILES
    ensures WalkStep(t, at, fid, true) == Success(x) <==>
              SelectChild(t, at, fid, true) == Success(x) || SelectChild(t, at, fid, false) == Success(x)
    ensures WalkStep(t, at, fid, false) == Success(x) <==> SelectChild(t, at, fid, true) == Success(x)
  {
    hide First;
  }

  lemma DescendOne(t: seq<Slot>, at: Selection, fid: u16, lastDf: bool)
    requires |t| <= MAX_FILES
    ensures Descend(t, at, [fid], lastDf) == SelectChild(t, at, fid, lastDf)
  {
    hide SelectChild;
    assert [fid][1..] == [];
  }

  lemma {:induction false} WalkIsDescent(t: seq<Slot>, at: Selection, path: seq<byte>, s: nat, x: Selection)
    requires |t| <= MAX_FILES && |path| % 2 == 0 && 2 * s <= |path|
    requires s == 0 && |path| > 0 ==> !HasFid(t, at.df, PathFid(path, 0))
    ensures Walk(t, at, path, s) == Success(x) <==> DescendsTo(t, at, PathFids(path, s), x)
    decreases |path| - 2 * s
  {
    hide SelectChild, WalkStep, PathFid, HasFid;
    if 2 * s < |path| {
      var fid, rest := PathFid(path, s), PathFids(path, s + 1);
      assert PathFids(path, s)[1..] == rest;
      if rest == [] {
        LastStep(t, at, fid, x);
        DescendOne(t, at, fid, true);
        DescendOne(t, at, fid, false);
        LastWalk(t, at, path, s, x);
      } else {
        var w := WalkStep(t, at, fid, false);
        var c := SelectChild(t, at, fid, true);
        if w.Success? {
          LastStep(t, at, fid, w.value);
          WalkIsDescent(t, w.value, path, s + 1, x);
        }
        if c.Success? {
          LastStep(t, at, fid, c.value);
        }
      }
    }
  }

  lemma LastWalk(t: seq<Slot>, at: Selection, path: seq<byte>, s: nat, x: Selection)
    requires |t| <= MAX_FILES && |path| % 2 == 0 && 2 * (s + 1) == |path|
    requires s == 0 ==> !HasFid(t, at.df, PathFid(path, 0))
    ensures Walk(t, at, path, s) == Success(x) <==> WalkStep(t, at, PathFid(path, s), true) == Success(x)
  {
    hide WalkStep, PathFid, HasFid;
  }

  /**
    Selection by path, exactly: one to eight whole components; a first one
    that is the starting DF's own identifier is dropped; the rest is a
    descent. When nothing is left after that, the selection stays as it was,
    current EF included.
   */
  lemma PathExactly(t: seq<Slot>, sel: Selection, path: seq<byte>, fromMf: bool, x: Selection)
    requires |t| <= MAX_FILES
    ensures var start := if fromMf then Reset else sel;
            SelectByPath(t, sel, path, fromMf) == Success(x) <==>
              && |path| % 2 == 0 && 2 <= |path| <= 2 * MAX_DEPTH
              && var own := HasFid(t, start.df, PathFid(path, 0));
              DescendsTo(t, start, PathFids(path, if own then 1 else 0), x)
  {
    hide Walk, Descend, DescendsTo, HasFid, PathFid, PathFids;
    if |path| % 2 == 0 && 2 <= |path| <= 2 * MAX_DEPTH {
      var start := if fromMf then Reset else sel;
      if HasFid(t, start.df, PathFid(path, 0)) {
        DroppedStep(t, start, path);
        WalkIsDescent(t, start, path, 1, x);
      } else {
        WalkIsDescent(t, start, path, 0, x);
      }
    }
  }

  lemma DroppedStep(t: seq<Slot>, at: Selection, path: seq<byte>)
    requires |t| <= MAX_FILES && |path| % 2 == 0 && |path| >= 2 && HasFid(t, at.df, PathFid(path, 0))
    ensures Walk(t, at, path, 0) == Walk(t, at, path, 1)
  {
    hide HasFid, PathFid, WalkStep;
  }

  /** A file at most eight links deep is also reached by its path from the MF. */
  lemma FileByPath(t: seq<Slot>, sel: Selection, i: u16, n: nat, path: seq<byte>)
    requires Tree(t) && i < |t| && t[i].Live? && t[i].desc.Usable() && Reaches(t, i, n) && 1 <= n <= MAX_DEPTH
    requires |path| == 2 * n && PathFids(path, 0) == PathTo(t, i, n)
    ensures |t| <= MAX_FILES && SelectByPath(t, sel, path, true) == Success(Commit(i, t[i].desc))
  {
    hide Descend, PathFid, Commit, AllRooted, Clash;
    FileIsReached(t, i, n);
    PathExactly(t, sel, path, true, Commit(i, t[i].desc));
    FirstOfPath(t, i, n);
    assert PathFids(path, 0)[0] == PathFid(path, 0);
  }

  lemma {:induction false} FirstOfPath(t: seq<Slot>, i: nat, n: nat)
    requires Tree(t) && Reaches(t, i, n) && n > 0
    ensures PathTo(t, i, n)[0] != FID_MF
    decreases n
  {
    if n == 1 {
      assert IsFile(t, t[i]);
    } else {
      FirstOfPath(t, t[i].desc.parent, n - 1);
    }
  }
}
