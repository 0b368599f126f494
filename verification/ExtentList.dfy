/**
 The meaning of a leaf node of an extent tree (libext2fs/extent.c): a sorted list of extents read
 as a partial map from logical blocks to physical blocks.
 */
module ExtentList {

  const INIT_MAX_LEN: nat := 32768     // EXT_INIT_MAX_LEN
  const UNINIT_MAX_LEN: nat := 32767   // EXT_UNINIT_MAX_LEN
  const LBLK_LIMIT: nat := 0x1_0000_0000
  const PBLK_LIMIT: nat := 0x1_0000_0000_0000

  datatype Option<T> = None | Some(value: T)

  /** `struct ext2fs_extent` of a leaf. */
  datatype Extent = Extent(lblk: nat, pblk: nat, len: nat, uninit: bool) {
    function End(): nat { lblk + len }

    predicate Contains(k: nat) { lblk <= k < lblk + len }
  }

  /** Where a logical block is found, and whether it reads as zeroes. */
  datatype Target = Target(pblk: nat, uninit: bool)

  function MaxLen(uninit: bool): nat {
    if uninit then UNINIT_MAX_LEN else INIT_MAX_LEN
  }

  predicate ValidExtent(e: Extent) {
    && 1 <= e.len <= MaxLen(e.uninit)
    && e.End() <= LBLK_LIMIT
    && 1 <= e.pblk && e.pblk + e.len <= PBLK_LIMIT
  }

  ghost predicate WellFormed(s: seq<Extent>) {
    && (forall i :: 0 <= i < |s| ==> ValidExtent(s[i]))
    && (forall i, j :: 0 <= i < j < |s| ==> s[i].End() <= s[j].lblk)
  }

  /** The map: the first extent that holds k decides. */
  function Lookup(s: seq<Extent>, k: nat): (t: Option<Target>) {
    if s == [] then None
    else if s[0].Contains(k) then Some(Target(s[0].pblk + (k - s[0].lblk), s[0].uninit))
    else Lookup(s[1..], k)
  }

  // ----- Lookup and concatenation -----

  lemma {:induction false} LookupConcat(a: seq<Extent>, b: seq<Extent>, k: nat)
    ensures Lookup(a + b, k) == if Lookup(a, k).Some? then Lookup(a, k) else Lookup(b, k)
  {
    if a == [] {
      assert a + b == b;
    } else {
      assert (a + b)[1..] == a[1..] + b;
      LookupConcat(a[1..], b, k);
    }
  }

  lemma {:induction false} LookupNone(s: seq<Extent>, k: nat)
    ensures Lookup(s, k).None? <==> forall i :: 0 <= i < |s| ==> !s[i].Contains(k)
  {
    if s != [] {
      LookupNone(s[1..], k);
      assert forall i :: 0 <= i < |s| ==> s[i] == if i == 0 then s[0] else s[1..][i - 1];
    }
  }

  lemma LookupAt(s: seq<Extent>, i: nat, k: nat)
    requires WellFormed(s)
    requires i < |s| && s[i].Contains(k)
    ensures Lookup(s, k) == Some(Target(s[i].pblk + (k - s[i].lblk), s[i].uninit))
  {
    var front := s[..i];
    assert s == front + s[i..];
    LookupConcat(front, s[i..], k);
    EarlierMiss(s, i, k);
    LookupNone(front, k);
  }

  lemma EarlierMiss(s: seq<Extent>, i: nat, k: nat)
    requires WellFormed(s) && i < |s| && s[i].Contains(k)
    ensures forall j :: 0 <= j < i ==> !s[..i][j].Contains(k)
  {
    forall j | 0 <= j < i ensures !s[j].Contains(k) {
      assert s[j].End() <= s[i].lblk;
    }
  }

  // ----- Replacing a stretch of the list -----

  function Splice(s: seq<Extent>, i: nat, j: nat, mid: seq<Extent>): (t: seq<Extent>)
    requires i <= j <= |s|
    ensures |t| == |s| + |mid| - (j - i)
  {
    s[..i] + mid + s[j..]
  }

  /** A stretch that differs from the old one at l only changes the map at l only. */
  lemma SpliceLookup(s: seq<Extent>, i: nat, j: nat, mid: seq<Extent>, l: nat, target: Option<Target>)
    requires i <= j <= |s|
    requires forall k :: Lookup(mid, k) == if k == l then target else Lookup(s[i..j], k)
    requires forall m :: (0 <= m < i || j <= m < |s|) ==> !s[m].Contains(l)
    ensures forall k :: Lookup(Splice(s, i, j, mid), k) == if k == l then target else Lookup(s, k)
  {
    var t := Splice(s, i, j, mid);
    forall k ensures Lookup(t, k) == if k == l then target else Lookup(s, k) {
      LookupConcat(s[..i] + mid, s[j..], k);
      LookupConcat(s[..i], mid, k);
      assert s == s[..i] + s[i..j] + s[j..];
      LookupConcat(s[..i] + s[i..j], s[j..], k);
      LookupConcat(s[..i], s[i..j], k);
      if k == l {
        LookupNone(s[..i], l);
        LookupNone(s[j..], l);
      }
    }
  }

  lemma SpliceWellFormed(s: seq<Extent>, i: nat, j: nat, mid: seq<Extent>, lo: nat, hi: nat)
    requires i <= j <= |s|
    requires WellFormed(s) && WellFormed(mid)
    requires forall m :: 0 <= m < i ==> s[m].End() <= lo
    requires forall m :: j <= m < |s| ==> hi <= s[m].lblk
    requires forall m :: 0 <= m < |mid| ==> lo <= mid[m].lblk && mid[m].End() <= hi
    requires lo <= hi
    ensures WellFormed(Splice(s, i, j, mid))
  {
    var t := Splice(s, i, j, mid);
    var n := |mid|;
    assert forall m :: 0 <= m < i ==> t[m] == s[m];
    assert forall m :: i <= m < i + n ==> t[m] == mid[m - i];
    assert forall m :: i + n <= m < |t| ==> t[m] == s[m - i - n + j];
  }

  // ----- ext2fs_extent_goto on a list -----

  /** `ext2fs_extent_goto2` at the leaf: whether l is found, and where the cursor is left. */
  function GotoFrom(s: seq<Extent>, l: nat, i: nat): (r: (bool, nat))
    requires i < |s|
    ensures r.1 < |s|
    ensures r.0 ==> s[r.1].Contains(l)
    decreases |s| - i
  {
    if s[i].Contains(l) then (true, i)
    else if l < s[i].lblk then (false, if i > 0 then i - 1 else 0)
    else if i + 1 == |s| then (false, i)
    else GotoFrom(s, l, i + 1)
  }

  /** Extents that end at or before l are passed over. */
  lemma {:induction false} GotoSkips(s: seq<Extent>, l: nat, i: nat, j: nat)
    requires i <= j < |s|
    requires forall m :: i <= m < j ==> s[m].End() <= l
    ensures GotoFrom(s, l, i) == GotoFrom(s, l, j)
    decreases j - i
  {
    if i < j {
      GotoSkips(s, l, i + 1, j);
    }
  }

  lemma {:induction false} GotoFinds(s: seq<Extent>, l: nat, i: nat)
    requires i < |s| && s[i].Contains(l)
    requires forall m :: 0 <= m < i ==> s[m].End() <= l
    ensures GotoFrom(s, l, 0) == (true, i)
  {
    GotoSkips(s, l, 0, i);
  }

  /** In a well-formed list a miss means a hole, and the cursor is beside it. */
  lemma {:induction false} GotoMisses(s: seq<Extent>, l: nat, i: nat)
    requires WellFormed(s) && i < |s|
    requires !GotoFrom(s, l, i).0
    requires forall m :: 0 <= m < i ==> s[m].End() <= l
    ensures var p := GotoFrom(s, l, i).1;
            && (forall m :: 0 <= m < |s| ==> !s[m].Contains(l))
            && (l < s[p].lblk ==> p == 0)
            && (s[p].lblk <= l ==> s[p].End() <= l && (p + 1 < |s| ==> l < s[p + 1].lblk))
    decreases |s| - i
  {
    if s[i].lblk <= l && i + 1 < |s| {
      GotoMisses(s, l, i + 1);
    } else {
      assert forall m :: i < m < |s| ==> s[i].End() <= s[m].lblk;
    }
  }

  // ----- ext2fs_extent_set_bmap on a list -----

  /** l can be added at the right end of e. */
  predicate JoinsRight(e: Extent, l: nat, p: nat, u: bool) {
    l == e.End() && p == e.pblk + e.len && u == e.uninit && e.len < MaxLen(u) - 1
  }

  /** l can be added at the left end of e. */
  predicate JoinsLeft(e: Extent, l: nat, p: nat, u: bool) {
    l + 1 == e.lblk && p + 1 == e.pblk && u == e.uninit && e.len < MaxLen(u) - 1
  }

  function GrownRight(e: Extent): Extent {
    e.(len := e.len + 1)
  }

  function GrownLeft(e: Extent): Extent
    requires e.lblk > 0 && e.pblk > 0
  {
    Extent(e.lblk - 1, e.pblk - 1, e.len + 1, e.uninit)
  }

  /** e without its last block, and without its first. */
  function CutRight(e: Extent): Extent
    requires e.len > 0
  {
    e.(len := e.len - 1)
  }

  function CutLeft(e: Extent): Extent
    requires e.len > 0
  {
    Extent(e.lblk + 1, e.pblk + 1, e.len - 1, e.uninit)
  }

  /** The parts of e before and after l. */
  function Before(e: Extent, l: nat): Extent
    requires e.lblk <= l
  {
    e.(len := l - e.lblk)
  }

  function After(e: Extent, l: nat): Extent
    requires e.Contains(l)
  {
    Extent(l + 1, e.pblk + (l + 1 - e.lblk), e.End() - (l + 1), e.uninit)
  }

  /** The five ways to map a block that is in no extent; the cursor is at i. */
  function MapHole(s: seq<Extent>, i: nat, l: nat, p: nat, u: bool): (t: seq<Extent>)
    requires i < |s|
  {
    var e, new1 := s[i], Extent(l, p, 1, u);
    if JoinsRight(e, l, p, u) then Splice(s, i, i + 1, [GrownRight(e)])
    else if JoinsLeft(e, l, p, u) then Splice(s, i, i + 1, [GrownLeft(e)])
    else if i + 1 < |s| && JoinsLeft(s[i + 1], l, p, u) then Splice(s, i + 1, i + 2, [GrownLeft(s[i + 1])])
    else if l < e.lblk then Splice(s, i, i, [new1])
    else Splice(s, i + 1, i + 1, [new1])
  }

  /** The last block of the extent at i is mapped anew, or unmapped. */
  function RemapLast(s: seq<Extent>, i: nat, l: nat, p: nat, u: bool): (t: seq<Extent>)
    requires i < |s| && s[i].len > 0
  {
    if p == 0 then Splice(s, i, i + 1, [CutRight(s[i])])
    else if i + 1 < |s| && JoinsLeft(s[i + 1], l, p, u) then
      Splice(s, i, i + 2, [CutRight(s[i]), GrownLeft(s[i + 1])])
    else Splice(s, i, i + 1, [CutRight(s[i]), Extent(l, p, 1, u)])
  }

  /** The first block. */
  function RemapFirst(s: seq<Extent>, i: nat, l: nat, p: nat, u: bool): (t: seq<Extent>)
    requires i < |s| && s[i].len > 0
  {
    if p == 0 then Splice(s, i, i + 1, [CutLeft(s[i])])
    else if i > 0 && JoinsRight(s[i - 1], l, p, u) then
      Splice(s, i - 1, i + 1, [GrownRight(s[i - 1]), CutLeft(s[i])])
    else Splice(s, i, i + 1, [Extent(l, p, 1, u), CutLeft(s[i])])
  }

  /** A block inside. */
  function RemapMiddle(s: seq<Extent>, i: nat, l: nat, p: nat, u: bool): (t: seq<Extent>)
    requires i < |s| && s[i].Contains(l)
  {
    var new1 := if p == 0 then [] else [Extent(l, p, 1, u)];
    Splice(s, i, i + 1, [Before(s[i], l)] + new1 + [After(s[i], l)])
  }

  /** Which list `ext2fs_extent_set_bmap` means to leave behind. */
  function SetBmap(s: seq<Extent>, l: nat, p: nat, u: bool): (t: seq<Extent>) {
    if s == [] then [Extent(l, p, 1, u)]
    else
      var (mapped, i) := GotoFrom(s, l, 0);
      var e := s[i];
      if !mapped then
        (if p == 0 then s else MapHole(s, i, l, p, u))
      else if e.uninit == u && e.pblk + (l - e.lblk) == p then s
      else if e.len == 1 then Splice(s, i, i + 1, if p == 0 then [] else [Extent(l, p, 1, u)])
      else if l == e.End() - 1 then RemapLast(s, i, l, p, u)
      else if l == e.lblk then RemapFirst(s, i, l, p, u)
      else RemapMiddle(s, i, l, p, u)
  }

  /** What setting l to p means for the map. */
  function Wanted(p: nat, u: bool): Option<Target> {
    if p == 0 then None else Some(Target(p, u))
  }

  /** t maps l as wanted and every other block as s does. */
  ghost predicate ChangesOnly(s: seq<Extent>, t: seq<Extent>, l: nat, wanted: Option<Target>) {
    forall k :: Lookup(t, k) == if k == l then wanted else Lookup(s, k)
  }

  ghost predicate Goal(s: seq<Extent>, t: seq<Extent>, l: nat, p: nat, u: bool) {
    WellFormed(t) && ChangesOnly(s, t, l, Wanted(p, u))
  }

  /** s[i..j] lies between lo and hi, and the rest of the list outside. */
  ghost predicate Window(s: seq<Extent>, i: nat, j: nat, lo: nat, hi: nat) {
    && i <= j <= |s|
    && (forall m :: 0 <= m < i ==> s[m].End() <= lo)
    && (forall m :: j <= m < |s| ==> hi <= s[m].lblk)
  }

  lemma SpliceGoal(s: seq<Extent>, i: nat, j: nat, mid: seq<Extent>, lo: nat, hi: nat, l: nat, p: nat, u: bool)
    requires WellFormed(s) && WellFormed(mid)
    requires Window(s, i, j, lo, hi) && lo <= l < hi
    requires forall m :: 0 <= m < |mid| ==> lo <= mid[m].lblk && mid[m].End() <= hi
    requires ChangesOnly(s[i..j], mid, l, Wanted(p, u))
    ensures Goal(s, Splice(s, i, j, mid), l, p, u)
  {
    SpliceWellFormed(s, i, j, mid, lo, hi);
    SpliceLookup(s, i, j, mid, l, Wanted(p, u));
  }

  lemma GrowRightGoal(s: seq<Extent>, i: nat, l: nat, p: nat, u: bool)
    requires WellFormed(s) && i < |s| && l < LBLK_LIMIT && p < PBLK_LIMIT
    requires JoinsRight(s[i], l, p, u) && (i + 1 < |s| ==> l < s[i + 1].lblk)
    requires p > 0
    ensures Goal(s, Splice(s, i, i + 1, [GrownRight(s[i])]), l, p, u)
  {
    assert s[i..i + 1] == [s[i]];
    SpliceGoal(s, i, i + 1, [GrownRight(s[i])], s[i].lblk, l + 1, l, p, u);
  }

  lemma GrowLeftGoal(s: seq<Extent>, i: nat, l: nat, p: nat, u: bool)
    requires WellFormed(s) && i < |s|
    requires JoinsLeft(s[i], l, p, u) && (i > 0 ==> s[i - 1].End() <= l)
    requires p > 0
    ensures Goal(s, Splice(s, i, i + 1, [GrownLeft(s[i])]), l, p, u)
  {
    assert s[i..i + 1] == [s[i]];
    SpliceGoal(s, i, i + 1, [GrownLeft(s[i])], l, s[i].End(), l, p, u);
  }

  lemma InsertGoal(s: seq<Extent>, i: nat, l: nat, p: nat, u: bool)
    requires WellFormed(s) && i <= |s| && l < LBLK_LIMIT && 0 < p < PBLK_LIMIT
    requires (i > 0 ==> s[i - 1].End() <= l) && (i < |s| ==> l < s[i].lblk)
    ensures Goal(s, Splice(s, i, i, [Extent(l, p, 1, u)]), l, p, u)
  {
    assert s[i..i] == [];
    SpliceGoal(s, i, i, [Extent(l, p, 1, u)], l, l + 1, l, p, u);
  }

  lemma HoleGoal(s: seq<Extent>, l: nat, p: nat, u: bool)
    requires WellFormed(s) && s != [] && l < LBLK_LIMIT && 0 < p < PBLK_LIMIT
    requires !GotoFrom(s, l, 0).0
    ensures Goal(s, MapHole(s, GotoFrom(s, l, 0).1, l, p, u), l, p, u)
  {
    GotoMisses(s, l, 0);
    var i := GotoFrom(s, l, 0).1;
    if JoinsRight(s[i], l, p, u) {
      GrowRightGoal(s, i, l, p, u);
    } else if JoinsLeft(s[i], l, p, u) {
      GrowLeftGoal(s, i, l, p, u);
    } else if i + 1 < |s| && JoinsLeft(s[i + 1], l, p, u) {
      GrowLeftGoal(s, i + 1, l, p, u);
    } else {
      InsertGoal(s, if l < s[i].lblk then i else i + 1, l, p, u);
    }
  }

  lemma TwoLookup(a: Extent, b: Extent, k: nat)
    ensures Lookup([a, b], k) == if a.Contains(k) then Lookup([a], k) else Lookup([b], k)
  {
    assert [a, b] == [a] + [b];
    LookupConcat([a], [b], k);
  }

  lemma ThreeLookup(a: Extent, b: Extent, c: Extent, k: nat)
    ensures Lookup([a, b, c], k) ==
              if a.Contains(k) then Lookup([a], k) else if b.Contains(k) then Lookup([b], k) else Lookup([c], k)
  {
    assert [a, b, c] == [a, b] + [c];
    LookupConcat([a, b], [c], k);
    TwoLookup(a, b, k);
  }

  /** An extent that loses its last block to a neighbour, or to nobody. */
  lemma CutRightChanges(e: Extent, n: Extent, l: nat, p: nat, u: bool)
    requires e.len > 1 && l == e.End() - 1 && p != 0
    ensures ChangesOnly([e], [CutRight(e), Extent(l, p, 1, u)], l, Wanted(p, u))
    ensures JoinsLeft(n, l, p, u) ==> ChangesOnly([e, n], [CutRight(e), GrownLeft(n)], l, Wanted(p, u))
  {
    forall k ensures Lookup([CutRight(e), Extent(l, p, 1, u)], k) == if k == l then Wanted(p, u) else Lookup([e], k) {
      TwoLookup(CutRight(e), Extent(l, p, 1, u), k);
    }
    if JoinsLeft(n, l, p, u) {
      forall k ensures Lookup([CutRight(e), GrownLeft(n)], k) == if k == l then Wanted(p, u) else Lookup([e, n], k) {
        TwoLookup(e, n, k);
        TwoLookup(CutRight(e), GrownLeft(n), k);
      }
    }
  }

  lemma CutLeftChanges(q: Extent, e: Extent, l: nat, p: nat, u: bool)
    requires e.len > 1 && l == e.lblk && p != 0 && q.End() <= l
    ensures ChangesOnly([e], [Extent(l, p, 1, u), CutLeft(e)], l, Wanted(p, u))
    ensures JoinsRight(q, l, p, u) ==> ChangesOnly([q, e], [GrownRight(q), CutLeft(e)], l, Wanted(p, u))
  {
    forall k ensures Lookup([Extent(l, p, 1, u), CutLeft(e)], k) == if k == l then Wanted(p, u) else Lookup([e], k) {
      TwoLookup(Extent(l, p, 1, u), CutLeft(e), k);
    }
    if JoinsRight(q, l, p, u) {
      forall k ensures Lookup([GrownRight(q), CutLeft(e)], k) == if k == l then Wanted(p, u) else Lookup([q, e], k) {
        TwoLookup(q, e, k);
        TwoLookup(GrownRight(q), CutLeft(e), k);
      }
    }
  }

  lemma SplitChanges(e: Extent, l: nat, p: nat, u: bool)
    requires e.Contains(l)
    ensures ChangesOnly([e], [Before(e, l), After(e, l)], l, None)
    ensures p != 0 ==> ChangesOnly([e], [Before(e, l), Extent(l, p, 1, u), After(e, l)], l, Wanted(p, u))
  {
    forall k ensures Lookup([Before(e, l), After(e, l)], k) == if k == l then None else Lookup([e], k) {
      TwoLookup(Before(e, l), After(e, l), k);
    }
    if p != 0 {
      forall k ensures Lookup([Before(e, l), Extent(l, p, 1, u), After(e, l)], k)
                    == if k == l then Wanted(p, u) else Lookup([e], k) {
        ThreeLookup(Before(e, l), Extent(l, p, 1, u), After(e, l), k);
      }
    }
  }

  lemma LastGoal(s: seq<Extent>, i: nat, l: nat, p: nat, u: bool)
    requires WellFormed(s) && i < |s| && s[i].len > 1 && l == s[i].End() - 1 && p < PBLK_LIMIT
    ensures Goal(s, RemapLast(s, i, l, p, u), l, p, u)
  {
    var e := s[i];
    if p == 0 {
      OneGoal(s, i, [CutRight(e)], l, p, u);
    } else if i + 1 < |s| && JoinsLeft(s[i + 1], l, p, u) {
      var n := s[i + 1];
      assert s[i..i + 2] == [e, n];
      CutRightChanges(e, n, l, p, u);
      SpliceGoal(s, i, i + 2, [CutRight(e), GrownLeft(n)], e.lblk, n.End(), l, p, u);
    } else {
      CutRightChanges(e, e, l, p, u);
      OneGoal(s, i, [CutRight(e), Extent(l, p, 1, u)], l, p, u);
    }
  }

  lemma FirstGoal(s: seq<Extent>, i: nat, l: nat, p: nat, u: bool)
    requires WellFormed(s) && i < |s| && s[i].len > 1 && l == s[i].lblk && p < PBLK_LIMIT
    ensures Goal(s, RemapFirst(s, i, l, p, u), l, p, u)
  {
    if p != 0 && i > 0 && JoinsRight(s[i - 1], l, p, u) {
      FirstToPrevGoal(s, i, l, p, u);
    } else {
      var e := s[i];
      assert s[i..i + 1] == [e];
      var mid := if p == 0 then [CutLeft(e)] else [Extent(l, p, 1, u), CutLeft(e)];
      if p != 0 {
        CutLeftChanges(Extent(0, 0, 0, u), e, l, p, u);
      }
      SpliceGoal(s, i, i + 1, mid, e.lblk, e.End(), l, p, u);
    }
  }

  lemma FirstToPrevGoal(s: seq<Extent>, i: nat, l: nat, p: nat, u: bool)
    requires WellFormed(s) && 0 < i < |s| && s[i].len > 1 && l == s[i].lblk && 0 < p < PBLK_LIMIT
    requires JoinsRight(s[i - 1], l, p, u)
    ensures Goal(s, Splice(s, i - 1, i + 1, [GrownRight(s[i - 1]), CutLeft(s[i])]), l, p, u)
  {
    var q, e := s[i - 1], s[i];
    assert s[i - 1..i + 1] == [q, e];
    CutLeftChanges(q, e, l, p, u);
    SpliceGoal(s, i - 1, i + 1, [GrownRight(q), CutLeft(e)], q.lblk, e.End(), l, p, u);
  }

  lemma MiddleGoal(s: seq<Extent>, i: nat, l: nat, p: nat, u: bool)
    requires WellFormed(s) && i < |s| && s[i].lblk < l < s[i].End() - 1 && p < PBLK_LIMIT
    ensures Goal(s, RemapMiddle(s, i, l, p, u), l, p, u)
  {
    SplitChanges(s[i], l, p, u);
    OneGoal(s, i, MiddlePieces(s[i], l, p, u), l, p, u);
  }

  /** What a block inside e is split into. */
  ghost function MiddlePieces(e: Extent, l: nat, p: nat, u: bool): (mid: seq<Extent>)
    requires e.lblk < l < e.End() - 1
    ensures mid == [Before(e, l)] + (if p == 0 then [] else [Extent(l, p, 1, u)]) + [After(e, l)]
  {
    if p == 0 then [Before(e, l), After(e, l)] else [Before(e, l), Extent(l, p, 1, u), After(e, l)]
  }

  /** One extent is replaced by others inside its bounds. */
  lemma OneGoal(s: seq<Extent>, i: nat, mid: seq<Extent>, l: nat, p: nat, u: bool)
    requires WellFormed(s) && WellFormed(mid) && i < |s| && s[i].Contains(l)
    requires forall m :: 0 <= m < |mid| ==> s[i].lblk <= mid[m].lblk && mid[m].End() <= s[i].End()
    requires ChangesOnly([s[i]], mid, l, Wanted(p, u))
    ensures Goal(s, Splice(s, i, i + 1, mid), l, p, u)
  {
    assert s[i..i + 1] == [s[i]];
    SpliceGoal(s, i, i + 1, mid, s[i].lblk, s[i].End(), l, p, u);
  }

  lemma OnlyGoal(s: seq<Extent>, i: nat, l: nat, p: nat, u: bool)
    requires WellFormed(s) && i < |s| && s[i].len == 1 && l == s[i].lblk && p < PBLK_LIMIT
    ensures Goal(s, Splice(s, i, i + 1, if p == 0 then [] else [Extent(l, p, 1, u)]), l, p, u)
  {
    assert s[i..i + 1] == [s[i]];
    SpliceGoal(s, i, i + 1, if p == 0 then [] else [Extent(l, p, 1, u)], l, l + 1, l, p, u);
  }

  lemma HoleOrNothingGoal(s: seq<Extent>, l: nat, p: nat, u: bool)
    requires WellFormed(s) && s != [] && l < LBLK_LIMIT && p < PBLK_LIMIT
    requires !GotoFrom(s, l, 0).0
    ensures Goal(s, if p == 0 then s else MapHole(s, GotoFrom(s, l, 0).1, l, p, u), l, p, u)
  {
    if p == 0 {
      GotoMisses(s, l, 0);
      LookupNone(s, l);
    } else {
      HoleGoal(s, l, p, u);
    }
  }

  lemma UnchangedGoal(s: seq<Extent>, i: nat, l: nat, p: nat, u: bool)
    requires WellFormed(s) && i < |s| && s[i].Contains(l)
    requires s[i].uninit == u && s[i].pblk + (l - s[i].lblk) == p
    ensures Goal(s, s, l, p, u)
  {
    LookupAt(s, i, l);
  }

  /**
   The main result: whatever branch is taken, the list stays well formed and the map changes at l
   and nowhere else.
   */
  lemma SetBmapGoal(s: seq<Extent>, l: nat, p: nat, u: bool)
    requires WellFormed(s) && l < LBLK_LIMIT && p < PBLK_LIMIT
    requires s == [] ==> p != 0
    ensures Goal(s, SetBmap(s, l, p, u), l, p, u)
  {
    if s == [] {
      InsertGoal(s, 0, l, p, u);
      assert Splice(s, 0, 0, [Extent(l, p, 1, u)]) == [Extent(l, p, 1, u)];
    } else {
      var (mapped, i) := GotoFrom(s, l, 0);
      if !mapped {
        HoleOrNothingGoal(s, l, p, u);
      } else if s[i].uninit == u && s[i].pblk + (l - s[i].lblk) == p {
        UnchangedGoal(s, i, l, p, u);
      } else if s[i].len == 1 {
        OnlyGoal(s, i, l, p, u);
      } else if l == s[i].End() - 1 {
        LastGoal(s, i, l, p, u);
      } else if l == s[i].lblk {
        FirstGoal(s, i, l, p, u);
      } else {
        MiddleGoal(s, i, l, p, u);
      }
    }
  }

  /** At most two more extents than before. */
  lemma SetBmapGrowth(s: seq<Extent>, l: nat, p: nat, u: bool)
    requires WellFormed(s)
    ensures |SetBmap(s, l, p, u)| <= |s| + 2
  {
    if s != [] {
      var (mapped, i) := GotoFrom(s, l, 0);
      assert |MapHole(s, i, l, p, u)| <= |s| + 1;
      if s[i].len > 0 {
        assert |RemapLast(s, i, l, p, u)| <= |s| + 1;
        assert |RemapFirst(s, i, l, p, u)| <= |s| + 1;
      }
      if mapped {
        assert |RemapMiddle(s, i, l, p, u)| <= |s| + 2;
      }
    }
  }

  // ----- How many extents there are then -----

  /** An extent ends right before l, p continues it, its flag is u, and it is not too long for one block more. */
  ghost predicate Continued(s: seq<Extent>, l: nat, p: nat, u: bool) {
    exists i :: 0 <= i < |s| && EndsAt(s[i], l, p, u)
  }

  ghost predicate EndsAt(e: Extent, l: nat, p: nat, u: bool) {
    e.lblk + e.len == l && e.pblk + e.len == p && e.uninit == u && e.len < if u then 32766 else 32767
  }

  /** An extent begins right behind l, p leads to it, its flag is u, and it is not too long for one block more. */
  ghost predicate Leading(s: seq<Extent>, l: nat, p: nat, u: bool) {
    exists i :: 0 <= i < |s| && BeginsAt(s[i], l, p, u)
  }

  ghost predicate BeginsAt(e: Extent, l: nat, p: nat, u: bool) {
    e.lblk == l + 1 && e.pblk == p + 1 && e.uninit == u && e.len < if u then 32766 else 32767
  }

  /** By how many extents the list grows when l, which is in e, is mapped to p. */
  function Change(e: Extent, l: nat, p: nat, u: bool, continued: bool, leading: bool): (n: int) {
    if e.uninit == u && e.pblk + (l - e.lblk) == p then 0
    else if e.len == 1 then (if p == 0 then -1 else 0)
    else if l == e.lblk + e.len - 1 then (if p == 0 || leading then 0 else 1)
    else if l == e.lblk then (if p == 0 || continued then 0 else 1)
    else if p == 0 then 1
    else 2
  }

  lemma ContinuedAt(s: seq<Extent>, i: nat, l: nat, p: nat, u: bool)
    requires WellFormed(s) && i < |s| && s[i].End() == l
    ensures Continued(s, l, p, u) <==> EndsAt(s[i], l, p, u)
  {
  }

  lemma LeadingAt(s: seq<Extent>, i: nat, l: nat, p: nat, u: bool)
    requires WellFormed(s) && i < |s| && s[i].lblk == l + 1
    ensures Leading(s, l, p, u) <==> BeginsAt(s[i], l, p, u)
  {
  }

  /** Beside a hole there are the extent of the cursor and the next one. */
  lemma BesideHole(s: seq<Extent>, i: nat, l: nat, p: nat, u: bool)
    requires WellFormed(s) && s != [] && !GotoFrom(s, l, 0).0 && i == GotoFrom(s, l, 0).1
    ensures Continued(s, l, p, u) <==> EndsAt(s[i], l, p, u)
    ensures Leading(s, l, p, u) <==> BeginsAt(s[i], l, p, u) || (i + 1 < |s| && BeginsAt(s[i + 1], l, p, u))
  {
    GotoMisses(s, l, 0);
    forall k | 0 <= k < |s| && k != i ensures s[k].End() != l && (k != i + 1 ==> s[k].lblk != l + 1) {
      Ranked(s, i, k);
    }
  }

  lemma Ranked(s: seq<Extent>, i: nat, k: nat)
    requires WellFormed(s) && i < |s| && k < |s|
    ensures k < i ==> s[k].lblk < s[k].End() <= s[i].lblk
    ensures i < k ==> s[i].End() <= s[k].lblk < s[k].End()
    ensures i + 1 < k ==> s[i + 1].End() <= s[k].lblk
  {
  }

  /** In front of the extent of l there is only the one before it, behind it only the next. */
  lemma BesideExtent(s: seq<Extent>, i: nat, l: nat, p: nat, u: bool)
    requires WellFormed(s) && i < |s| && s[i].Contains(l)
    ensures Continued(s, l, p, u) <==> i > 0 && EndsAt(s[i - 1], l, p, u)
    ensures Leading(s, l, p, u) <==> i + 1 < |s| && BeginsAt(s[i + 1], l, p, u)
  {
    forall k | 0 <= k < |s| ensures (k + 1 != i ==> s[k].End() != l) && (k != i + 1 ==> s[k].lblk != l + 1) {
      Ranked(s, i, k);
      if k + 1 < i {
        Ranked(s, i, i - 1);
        Ranked(s, i - 1, k);
      }
    }
  }

  /** A hole is filled without a new extent exactly if one beside it takes the block. */
  lemma HoleCount(s: seq<Extent>, l: nat, p: nat, u: bool)
    requires WellFormed(s) && forall i :: 0 <= i < |s| ==> !s[i].Contains(l)
    ensures |SetBmap(s, l, p, u)| ==
            if s != [] && (p == 0 || Continued(s, l, p, u) || Leading(s, l, p, u)) then |s| else |s| + 1
  {
    if s != [] {
      BesideHole(s, GotoFrom(s, l, 0).1, l, p, u);
    }
  }

  /** And for a block that is mapped. */
  lemma ExtentCount(s: seq<Extent>, i: nat, l: nat, p: nat, u: bool)
    requires WellFormed(s) && i < |s| && s[i].Contains(l)
    ensures |SetBmap(s, l, p, u)| == |s| + Change(s[i], l, p, u, Continued(s, l, p, u), Leading(s, l, p, u))
  {
    GotoFinds(s, l, i);
    BesideExtent(s, i, l, p, u);
    FoundCount(s, i, l, p, u);
  }

  /** The same by the two extents beside it. */
  lemma FoundCount(s: seq<Extent>, i: nat, l: nat, p: nat, u: bool)
    requires i < |s| && GotoFrom(s, l, 0) == (true, i) && s[i].Contains(l)
    ensures |SetBmap(s, l, p, u)| ==
            |s| + Change(s[i], l, p, u, i > 0 && EndsAt(s[i - 1], l, p, u), i + 1 < |s| && BeginsAt(s[i + 1], l, p, u))
  {
  }

  /** How many extents there are when l has been mapped to p. */
  ghost predicate Counted(s: seq<Extent>, n: nat, l: nat, p: nat, u: bool) {
    && ((forall i :: 0 <= i < |s| ==> !s[i].Contains(l)) ==>
          n == if s != [] && (p == 0 || Continued(s, l, p, u) || Leading(s, l, p, u)) then |s| else |s| + 1)
    && (forall i :: 0 <= i < |s| && s[i].Contains(l) ==>
          n == |s| + Change(s[i], l, p, u, Continued(s, l, p, u), Leading(s, l, p, u)))
  }

  lemma SetBmapCounted(s: seq<Extent>, l: nat, p: nat, u: bool)
    requires WellFormed(s)
    ensures Counted(s, |SetBmap(s, l, p, u)|, l, p, u)
  {
    if forall i :: 0 <= i < |s| ==> !s[i].Contains(l) {
      HoleCount(s, l, p, u);
    }
    forall i | 0 <= i < |s| && s[i].Contains(l)
      ensures |SetBmap(s, l, p, u)| == |s| + Change(s[i], l, p, u, Continued(s, l, p, u), Leading(s, l, p, u))
    {
      ExtentCount(s, i, l, p, u);
    }
  }

  lemma CountedOnce(s: seq<Extent>, n: nat, n': nat, l: nat, p: nat, u: bool)
    requires Counted(s, n, l, p, u) && Counted(s, n', l, p, u)
    ensures n == n'
  {
  }

  /** A node of four extents, full, in which block 4 continues the first one: it gets longer. */
  lemma FullButContinued()
    ensures var s := [Extent(0, 100, 4, false), Extent(10, 200, 1, false), Extent(20, 300, 1, false), Extent(30, 400, 1, false)];
            SetBmap(s, 4, 104, false) == s[0 := Extent(0, 100, 5, false)]
  {
    var s := [Extent(0, 100, 4, false), Extent(10, 200, 1, false), Extent(20, 300, 1, false), Extent(30, 400, 1, false)];
    assert GotoFrom(s, 4, 1) == (false, 0);
  }
}
