/**
 Lists of runs of set bits: what the tree of libext2fs/blkmap64_rb.c stands for, read in order.
 */
module Runs {

  datatype Run = Run(start: nat, count: nat) {
    function End(): nat { start + count }

    predicate Holds(b: nat) { start <= b < start + count }
  }

  ghost predicate Ordered(s: seq<Run>, i: nat, j: nat)
    requires i < |s| && j < |s|
  {
    s[i].End() < s[j].start
  }

  /** Sorted, non-empty, and never touching: the only list that stands for its set of bits. */
  ghost predicate Canonical(s: seq<Run>) {
    && (forall i :: 0 <= i < |s| ==> s[i].count > 0)
    && (forall i, j :: 0 <= i < j < |s| ==> Ordered(s, i, j))
  }

  lemma CanonicalPairs(s: seq<Run>)
    requires Canonical(s)
    ensures forall i, j :: 0 <= i < j < |s| ==> s[i].End() < s[j].start
  {
    forall i, j | 0 <= i < j < |s| ensures s[i].End() < s[j].start {
      assert Ordered(s, i, j);
    }
  }

  /** Bit b is set. */
  ghost predicate Has(s: seq<Run>, b: nat) {
    exists i :: 0 <= i < |s| && s[i].Holds(b)
  }

  lemma HasAt(s: seq<Run>, i: nat, b: nat)
    requires i < |s| && s[i].Holds(b)
    ensures Has(s, b)
  {
  }

  /** Two canonical lists with the same bits are the same list. */
  lemma {:induction false} CanonicalUnique(s: seq<Run>, t: seq<Run>)
    requires Canonical(s) && Canonical(t)
    requires forall b: nat :: Has(s, b) <==> Has(t, b)
    ensures s == t
    decreases |s|
  {
    CanonicalPairs(s);
    CanonicalPairs(t);
    if s == [] {
      if t != [] {
        HasAt(t, 0, t[0].start);
      }
    } else if t == [] {
      HasAt(s, 0, s[0].start);
    } else {
      FirstStart(s, t);
      FirstStart(t, s);
      FirstEnd(s, t);
      FirstEnd(t, s);
      forall b: nat ensures Has(s[1..], b) <==> Has(t[1..], b) {
        HasTail(s, b);
        HasTail(t, b);
        assert Has(s, b) <==> Has(t, b);
      }
      CanonicalUnique(s[1..], t[1..]);
      assert s == [s[0]] + s[1..] && t == [t[0]] + t[1..];
    }
  }

  lemma HasTail(s: seq<Run>, b: nat)
    requires s != [] && Canonical(s)
    ensures Has(s[1..], b) <==> Has(s, b) && !s[0].Holds(b)
  {
    CanonicalPairs(s);
    if Has(s[1..], b) {
      var i :| 0 <= i < |s[1..]| && s[1..][i].Holds(b);
      HasAt(s, i + 1, b);
      assert s[0].End() < s[i + 1].start;
    }
    if Has(s, b) && !s[0].Holds(b) {
      var i :| 0 <= i < |s| && s[i].Holds(b);
      HasAt(s[1..], i - 1, b);
    }
  }

  lemma FirstStart(s: seq<Run>, t: seq<Run>)
    requires s != [] && t != [] && Canonical(s) && Canonical(t)
    requires forall b: nat :: Has(s, b) <==> Has(t, b)
    ensures t[0].start <= s[0].start
  {
    CanonicalPairs(s);
    CanonicalPairs(t);
    HasAt(s, 0, s[0].start);
    assert Has(t, s[0].start);
    var i :| 0 <= i < |t| && t[i].Holds(s[0].start);
    assert i > 0 ==> t[0].End() < t[i].start;
  }

  lemma FirstEnd(s: seq<Run>, t: seq<Run>)
    requires s != [] && t != [] && Canonical(s) && Canonical(t)
    requires s[0].start == t[0].start
    requires forall b: nat :: Has(s, b) <==> Has(t, b)
    ensures s[0].End() <= t[0].End()
  {
    CanonicalPairs(s);
    CanonicalPairs(t);
    if t[0].End() < s[0].End() {
      HasAt(s, 0, t[0].End());
    }
  }

  // ----- Replacing a stretch of the list -----

  function Splice(s: seq<Run>, i: nat, j: nat, mid: seq<Run>): (t: seq<Run>)
    requires i <= j <= |s|
  {
    s[..i] + mid + s[j..]
  }

  /** The runs outside i..j keep clear of lo..hi. */
  ghost predicate Clear(s: seq<Run>, i: nat, j: nat, lo: nat, hi: nat) {
    && i <= j <= |s|
    && (forall m :: 0 <= m < i ==> s[m].End() < lo)
    && (forall m :: j <= m < |s| ==> hi < s[m].start)
  }

  lemma SpliceCanonical(s: seq<Run>, i: nat, j: nat, mid: seq<Run>, lo: nat, hi: nat)
    requires Canonical(s) && Canonical(mid) && Clear(s, i, j, lo, hi) && lo <= hi
    requires forall m :: 0 <= m < |mid| ==> lo <= mid[m].start && mid[m].End() <= hi
    ensures Canonical(Splice(s, i, j, mid))
  {
    CanonicalPairs(s);
    CanonicalPairs(mid);
    var t, n := Splice(s, i, j, mid), |mid|;
    assert forall m :: 0 <= m < i ==> t[m] == s[m];
    assert forall m :: i <= m < i + n ==> t[m] == mid[m - i];
    assert forall m :: i + n <= m < |t| ==> t[m] == s[m - i - n + j];
  }

  lemma SpliceHas(s: seq<Run>, i: nat, j: nat, mid: seq<Run>, b: nat)
    requires i <= j <= |s|
    ensures Has(Splice(s, i, j, mid), b) <==> Has(s[..i], b) || Has(mid, b) || Has(s[j..], b)
  {
    ConcatHas(s[..i] + mid, s[j..], b);
    ConcatHas(s[..i], mid, b);
  }

  lemma ConcatHas(s: seq<Run>, t: seq<Run>, b: nat)
    ensures Has(s + t, b) <==> Has(s, b) || Has(t, b)
  {
    if Has(s + t, b) {
      var i :| 0 <= i < |s + t| && (s + t)[i].Holds(b);
      if i < |s| { HasAt(s, i, b); } else { HasAt(t, i - |s|, b); }
    }
    if Has(s, b) {
      var i :| 0 <= i < |s| && s[i].Holds(b);
      HasAt(s + t, i, b);
    }
    if Has(t, b) {
      var i :| 0 <= i < |t| && t[i].Holds(b);
      HasAt(s + t, |s| + i, b);
    }
  }

  lemma OneHas(r: Run, b: nat)
    ensures Has([r], b) <==> r.Holds(b)
  {
    if r.Holds(b) {
      HasAt([r], 0, b);
    }
  }

  lemma SplitHas(s: seq<Run>, i: nat, j: nat, b: nat)
    requires i <= j <= |s|
    ensures Has(s, b) <==> Has(s[..i], b) || Has(s[i..j], b) || Has(s[j..], b)
  {
    assert s == Splice(s, i, j, s[i..j]);
    SpliceHas(s, i, j, s[i..j], b);
  }

  // ----- Union with one run -----

  /** The runs i..j are those that meet or touch start..end; lo..hi is what they become together. */
  ghost predicate Absorbs(s: seq<Run>, i: nat, j: nat, start: nat, end: nat, lo: nat, hi: nat) {
    && i <= j <= |s| && start < end
    && (forall m :: 0 <= m < i ==> s[m].End() < start)
    && (forall m :: i <= m < j ==> start <= s[m].End() && s[m].start <= end)
    && (forall m :: j <= m < |s| ==> hi < s[m].start)
    && lo == (if i < j && s[i].start < start then s[i].start else start)
    && hi == (if i < j && end < s[j - 1].End() then s[j - 1].End() else end)
  }

  /** t is s with the bits lo..hi added. */
  ghost predicate Union(s: seq<Run>, t: seq<Run>, lo: nat, hi: nat) {
    && Canonical(t)
    && (forall b: nat :: Has(t, b) <==> Has(s, b) || lo <= b < hi)
  }

  lemma UnionRun(s: seq<Run>, i: nat, j: nat, start: nat, end: nat, lo: nat, hi: nat)
    requires Canonical(s) && Absorbs(s, i, j, start, end, lo, hi)
    ensures Union(s, Splice(s, i, j, [Run(lo, hi - lo)]), start, end)
  {
    CanonicalPairs(s);
    var r := Run(lo, hi - lo);
    assert forall m :: 0 <= m < i && i < j ==> s[m].End() < s[i].start;
    SpliceCanonical(s, i, j, [r], lo, hi);
    forall b: nat ensures Has(Splice(s, i, j, [r]), b) <==> Has(s, b) || start <= b < end {
      SpliceHas(s, i, j, [r], b);
      SplitHas(s, i, j, b);
      OneHas(r, b);
      AbsorbedHas(s, i, j, start, end, lo, hi, b);
    }
  }

  lemma AbsorbedHas(s: seq<Run>, i: nat, j: nat, start: nat, end: nat, lo: nat, hi: nat, b: nat)
    requires Canonical(s) && Absorbs(s, i, j, start, end, lo, hi)
    ensures lo <= b < hi <==> Has(s[i..j], b) || start <= b < end
  {
    CanonicalPairs(s);
    if Has(s[i..j], b) {
      var m :| 0 <= m < j - i && s[i..j][m].Holds(b);
      assert s[i..j][m] == s[i + m];
      assert s[i].start <= s[i + m].start && s[i + m].End() <= s[j - 1].End();
    }
    if lo <= b < hi && !(start <= b < end) {
      if b < start {
        HasAt(s[i..j], 0, b);
      } else {
        HasAt(s[i..j], j - 1 - i, b);
      }
    }
  }

  // ----- Difference with a range -----

  /** t is s without the bits lo..hi. */
  ghost predicate Minus(s: seq<Run>, t: seq<Run>, lo: nat, hi: nat) {
    && Canonical(t)
    && (forall b: nat :: Has(t, b) <==> Has(s, b) && !(lo <= b < hi))
  }

  lemma MinusTrans(s: seq<Run>, t: seq<Run>, u: seq<Run>, lo: nat, mid: nat, hi: nat)
    requires Minus(s, t, lo, mid) && Minus(t, u, mid, hi) && lo <= mid <= hi
    ensures Minus(s, u, lo, hi)
  {
    forall b: nat ensures Has(u, b) <==> Has(s, b) && !(lo <= b < hi) {
      assert Has(u, b) <==> Has(t, b) && !(mid <= b < hi);
      assert Has(t, b) <==> Has(s, b) && !(lo <= b < mid);
    }
  }

  /** The runs outside i..j have no bit in lo..hi. */
  ghost predicate Beside(s: seq<Run>, i: nat, j: nat, lo: nat, hi: nat) {
    && i <= j <= |s|
    && (forall m :: 0 <= m < i ==> s[m].End() <= lo)
    && (forall m :: j <= m < |s| ==> hi <= s[m].start)
  }

  lemma BesideHasNot(s: seq<Run>, i: nat, j: nat, lo: nat, hi: nat, b: nat)
    requires Beside(s, i, j, lo, hi) && lo <= b < hi
    ensures !Has(s[..i], b) && !Has(s[j..], b)
  {
  }

  lemma NothingRemoved(s: seq<Run>, i: nat, lo: nat, hi: nat)
    requires Canonical(s) && Beside(s, i, i, lo, hi)
    ensures Minus(s, s, lo, hi)
  {
    forall b: nat | lo <= b < hi ensures !Has(s, b) {
      BesideHasNot(s, i, i, lo, hi, b);
      SplitHas(s, i, i, b);
      assert s[i..i] == [];
    }
  }

  /** One run loses its bits in lo..hi. */
  lemma RunRemoved(s: seq<Run>, i: nat, mid: seq<Run>, lo: nat, hi: nat)
    requires Canonical(s) && i < |s| && Beside(s, i, i + 1, lo, hi)
    requires Canonical(mid) && forall m :: 0 <= m < |mid| ==> s[i].start <= mid[m].start && mid[m].End() <= s[i].End()
    requires forall b: nat :: Has(mid, b) <==> s[i].Holds(b) && !(lo <= b < hi)
    ensures Minus(s, Splice(s, i, i + 1, mid), lo, hi)
  {
    CanonicalPairs(s);
    SpliceCanonical(s, i, i + 1, mid, s[i].start, s[i].End());
    forall b: nat ensures Has(Splice(s, i, i + 1, mid), b) <==> Has(s, b) && !(lo <= b < hi) {
      assert Has(mid, b) <==> s[i].Holds(b) && !(lo <= b < hi);
      RunRemovedAt(s, i, mid, lo, hi, b);
    }
  }

  lemma RunRemovedAt(s: seq<Run>, i: nat, mid: seq<Run>, lo: nat, hi: nat, b: nat)
    requires i < |s| && Beside(s, i, i + 1, lo, hi)
    requires Has(mid, b) <==> s[i].Holds(b) && !(lo <= b < hi)
    ensures Has(Splice(s, i, i + 1, mid), b) <==> Has(s, b) && !(lo <= b < hi)
  {
    SpliceHas(s, i, i + 1, mid, b);
    SplitHas(s, i, i + 1, b);
    assert s[i..i + 1] == [s[i]];
    OneHas(s[i], b);
    if lo <= b < hi {
      BesideHasNot(s, i, i + 1, lo, hi, b);
    }
  }

  lemma RunErased(s: seq<Run>, i: nat, lo: nat, hi: nat)
    requires Canonical(s) && i < |s| && Beside(s, i, i + 1, lo, hi)
    requires lo <= s[i].start && s[i].End() <= hi
    ensures Minus(s, Splice(s, i, i + 1, []), lo, hi)
  {
    RunRemoved(s, i, [], lo, hi);
  }

  lemma RunCutRight(s: seq<Run>, i: nat, lo: nat, hi: nat)
    requires Canonical(s) && i < |s| && Beside(s, i, i + 1, lo, hi)
    requires s[i].start < lo < s[i].End() <= hi
    ensures Minus(s, Splice(s, i, i + 1, [Run(s[i].start, lo - s[i].start)]), lo, hi)
  {
    var r := Run(s[i].start, lo - s[i].start);
    forall b: nat ensures Has([r], b) <==> s[i].Holds(b) && !(lo <= b < hi) {
      OneHas(r, b);
    }
    RunRemoved(s, i, [r], lo, hi);
  }

  lemma RunCutLeft(s: seq<Run>, i: nat, lo: nat, hi: nat)
    requires Canonical(s) && i < |s| && Beside(s, i, i + 1, lo, hi)
    requires lo <= s[i].start <= hi < s[i].End()
    ensures Minus(s, Splice(s, i, i + 1, [Run(hi, s[i].End() - hi)]), lo, hi)
  {
    var r := Run(hi, s[i].End() - hi);
    forall b: nat ensures Has([r], b) <==> s[i].Holds(b) && !(lo <= b < hi) {
      OneHas(r, b);
    }
    RunRemoved(s, i, [r], lo, hi);
  }

  // ----- Queries -----

  predicate AllAre(bits: seq<bool>, v: bool) {
    forall k :: 0 <= k < |bits| ==> bits[k] == v
  }

  /** Some run has a bit in start..end or begins at end. */
  ghost predicate Meets(s: seq<Run>, start: nat, end: nat) {
    exists m :: 0 <= m < |s| && s[m].start <= end && start < s[m].End()
  }

  lemma MeetsIsInclusive(s: seq<Run>, start: nat, end: nat)
    requires Canonical(s) && start <= end
    ensures Meets(s, start, end) <==> exists b: nat :: start <= b <= end && Has(s, b)
  {
    if Meets(s, start, end) {
      var m :| 0 <= m < |s| && s[m].start <= end && start < s[m].End();
      var b := if s[m].start <= start then start else s[m].start;
      HasAt(s, m, b);
      assert start <= b <= end && Has(s, b);
    }
    if b: nat :| start <= b <= end && Has(s, b) {
      var m :| 0 <= m < |s| && s[m].Holds(b);
    }
  }

  datatype Found = At(bit: nat) | Nowhere | Invalid

  ghost predicate AllClear(s: seq<Run>, lo: nat, hi: nat) {
    forall b: nat :: lo <= b < hi ==> !Has(s, b)
  }

  /** The answer to a search for the least clear bit of start..end, both included. */
  ghost predicate FirstZero(s: seq<Run>, start: nat, end: nat, out: Found) {
    match out
    case At(bit) => start <= bit <= end && !Has(s, bit) && forall b: nat :: start <= b < bit ==> Has(s, b)
    case Nowhere => start <= end && forall b: nat :: start <= b <= end ==> Has(s, b)
    case Invalid => start > end
  }

  /** The same for the least set bit. */
  ghost predicate FirstSet(s: seq<Run>, start: nat, end: nat, out: Found) {
    match out
    case At(bit) => start <= bit <= end && Has(s, bit) && AllClear(s, start, bit)
    case Nowhere => start <= end && AllClear(s, start, end + 1)
    case Invalid => start > end
  }

  /** What a removal of one bit answers is whether that bit was set, except when it was clear and the next one set. */
  lemma UnmarkAnswer(s: seq<Run>, b: nat)
    requires Canonical(s)
    ensures (Meets(s, b, b + 1) <==> Has(s, b)) <==> (Has(s, b) || !Has(s, b + 1))
  {
    MeetsIsInclusive(s, b, b + 1);
    if c: nat :| b <= c <= b + 1 && Has(s, c) {
      assert c == b || c == b + 1;
    }
  }

  lemma UnmarkAnswerWrong()
    ensures var s := [Run(1, 1)]; Canonical(s) && !Has(s, 0) && Meets(s, 0, 1)
  {
    assert [Run(1, 1)][0].Holds(1);
  }

  /** The end of a run is clear, and so is what lies between two neighbours. */
  lemma BetweenClear(s: seq<Run>, i: nat, b: nat)
    requires Canonical(s) && i < |s| && s[i].End() <= b && (i + 1 < |s| ==> b < s[i + 1].start)
    ensures !Has(s, b)
  {
    CanonicalPairs(s);
  }

  lemma EndClear(s: seq<Run>, i: nat)
    requires Canonical(s) && i < |s|
    ensures !Has(s, s[i].End())
  {
    CanonicalPairs(s);
    BetweenClear(s, i, s[i].End());
  }

  lemma InsideSet(s: seq<Run>, i: nat, lo: nat, hi: nat)
    requires i < |s| && s[i].start <= lo && hi <= s[i].End()
    ensures forall b: nat :: lo <= b < hi ==> Has(s, b)
  {
    forall b: nat | lo <= b < hi ensures Has(s, b) {
      HasAt(s, i, b);
    }
  }
}
