/**
 Model of e2fsmac/qsort.c: Bentley and McIlroy's quicksort, sorting in place.

 The C code moves `es`-byte items through `char *` pointers; here an item is a value of type T
 and a pointer is an index, so `pa += es` is `pa := pa + 1`.
 */
module Qsort {

  // ----- The comparison function and the two properties of a sorted array -----

  /** What the C library asks of `cmp`: a total preorder, given by the sign of the result. */
  ghost predicate TotalPreorder<T(!new)>(cmp: (T, T) -> int) {
    && (forall x, y :: Opposite(cmp, x, y))
    && (forall x, y, z :: Chained(cmp, x, y, z))
  }

  ghost predicate Opposite<T>(cmp: (T, T) -> int, x: T, y: T) {
    cmp(x, y) < 0 <==> cmp(y, x) > 0
  }

  ghost predicate Chained<T>(cmp: (T, T) -> int, x: T, y: T, z: T) {
    cmp(x, y) <= 0 && cmp(y, z) <= 0 ==> cmp(x, z) <= 0
  }

  ghost predicate Sorted<T>(s: seq<T>, lo: nat, hi: nat, cmp: (T, T) -> int)
    requires lo <= hi <= |s|
  {
    forall i, j :: lo <= i < j < hi ==> cmp(s[i], s[j]) <= 0
  }

  /** How often x occurs in s. */
  ghost function Times<T>(s: seq<T>, x: T): nat {
    multiset(s)[x]
  }

  /** t is s with the items of s[lo..hi] rearranged among themselves. */
  ghost predicate Shuffled<T(!new)>(s: seq<T>, t: seq<T>, lo: nat, hi: nat) {
    && lo <= hi <= |s| == |t|
    && (forall k {:trigger t[k]} :: 0 <= k < |s| && !(lo <= k < hi) ==> t[k] == s[k])
    && (forall x :: Times(t, x) == Times(s, x))
  }

  lemma ShuffledTrans<T(!new)>(s: seq<T>, t: seq<T>, u: seq<T>, lo: nat, hi: nat)
    requires Shuffled(s, t, lo, hi) && Shuffled(t, u, lo, hi)
    ensures Shuffled(s, u, lo, hi)
  {
  }

  lemma ShuffledWiden<T(!new)>(s: seq<T>, t: seq<T>, lo: nat, hi: nat, lo': nat, hi': nat)
    requires Shuffled(s, t, lo, hi)
    requires lo' <= lo && hi <= hi' <= |s|
    ensures Shuffled(s, t, lo', hi')
  {
  }

  lemma SameMultiset<T(!new)>(s: seq<T>, t: seq<T>)
    requires forall x :: Times(t, x) == Times(s, x)
    ensures multiset(s) == multiset(t)
  {
    forall x ensures multiset(s)[x] == multiset(t)[x] {
      assert Times(t, x) == Times(s, x);
    }
  }

  lemma SplitMultiset<T>(s: seq<T>, lo: nat, hi: nat)
    requires lo <= hi <= |s|
    ensures multiset(s) == multiset(s[..lo]) + multiset(s[lo..hi]) + multiset(s[hi..])
  {
    assert s == s[..lo] + s[lo..hi] + s[hi..];
  }

  lemma ShuffledMiddle<T(!new)>(s: seq<T>, t: seq<T>, lo: nat, hi: nat)
    requires Shuffled(s, t, lo, hi)
    ensures multiset(s[lo..hi]) == multiset(t[lo..hi])
  {
    SplitMultiset(s, lo, hi);
    SplitMultiset(t, lo, hi);
    assert s[..lo] == t[..lo] && s[hi..] == t[hi..];
    SameMultiset(s, t);
    var outside := multiset(s[..lo]) + multiset(s[hi..]);
    assert multiset(s[lo..hi]) == multiset(s) - outside;
    assert multiset(t[lo..hi]) == multiset(t) - outside;
  }

  /** Where an item of a shuffled range came from. */
  lemma ShuffledOrigin<T(!new)>(s: seq<T>, t: seq<T>, lo: nat, hi: nat, k: nat) returns (j: nat)
    requires Shuffled(s, t, lo, hi)
    requires lo <= k < hi
    ensures lo <= j < hi && s[j] == t[k]
  {
    ShuffledMiddle(s, t, lo, hi);
    assert t[lo..hi][k - lo] in multiset(t[lo..hi]);
    assert t[k] in s[lo..hi];
    var i :| 0 <= i < hi - lo && s[lo..hi][i] == t[k];
    j := lo + i;
  }

  // ----- Exchanges -----

  function Exchanged<T>(s: seq<T>, i: nat, j: nat): (t: seq<T>)
    requires i < |s| && j < |s|
  {
    s[i := s[j]][j := s[i]]
  }

  lemma ExchangedIsShuffled<T(!new)>(s: seq<T>, i: nat, j: nat, lo: nat, hi: nat)
    requires lo <= i < hi <= |s| && lo <= j < hi
    ensures Shuffled(s, Exchanged(s, i, j), lo, hi)
  {
    var t := Exchanged(s, i, j);
    assert multiset(s[i := s[j]]) == multiset(s) - multiset{s[i]} + multiset{s[j]};
    assert multiset(t) == multiset(s);
  }

  /** The `swap` macro, used within the range lo..hi being sorted. */
  method Swap<T(!new)>(a: array<T>, i: nat, j: nat, ghost lo: nat, ghost hi: nat)
    requires lo <= i < hi <= a.Length && lo <= j < hi
    modifies a
    ensures a[..] == Exchanged(old(a[..]), i, j)
    ensures Shuffled(old(a[..]), a[..], lo, hi)
  {
    a[i], a[j] := a[j], a[i];
    assert a[..] == Exchanged(old(a[..]), i, j);
    ExchangedIsShuffled(old(a[..]), i, j, lo, hi);
  }

  /** t is s with the first k items of the blocks at i and j exchanged. */
  ghost predicate BlocksExchanged<T>(s: seq<T>, t: seq<T>, i: nat, j: nat, k: nat) {
    && i + k <= j && j + k <= |s| == |t|
    && (forall m {:trigger t[m]} :: i <= m < i + k ==> t[m] == s[j + (m - i)])
    && (forall m {:trigger t[m]} :: j <= m < j + k ==> t[m] == s[i + (m - j)])
    && (forall m {:trigger t[m]} :: 0 <= m < |s| && !(i <= m < i + k) && !(j <= m < j + k) ==> t[m] == s[m])
  }

  lemma BlocksExchangedStep<T>(s: seq<T>, t: seq<T>, i: nat, j: nat, k: nat)
    requires i + k < j && j + k < |s|
    requires BlocksExchanged(s, t, i, j, k)
    ensures BlocksExchanged(s, Exchanged(t, i + k, j + k), i, j, k + 1)
  {
  }

  /** `vecswap`: exchanges two disjoint blocks of n items, with the do-while of `swapcode`. */
  method VecSwap<T(!new)>(a: array<T>, i: nat, j: nat, n: nat, ghost lo: nat, ghost hi: nat)
    requires lo <= i && i + n <= j && j + n <= hi <= a.Length
    modifies a
    ensures BlocksExchanged(old(a[..]), a[..], i, j, n)
    ensures Shuffled(old(a[..]), a[..], lo, hi)
  {
    ghost var s := a[..];
    var k := 0;
    while k < n
      invariant k <= n
      invariant BlocksExchanged(s, a[..], i, j, k)
      invariant Shuffled(s, a[..], lo, hi)
    {
      ghost var before := a[..];
      BlocksExchangedStep(s, before, i, j, k);
      Swap(a, i + k, j + k, lo, hi);
      ShuffledTrans(s, before, a[..], lo, hi);
      k := k + 1;
    }
  }

  /** m is one of the three indices, and its item lies between the other two. */
  ghost predicate IsMedian<T>(a: seq<T>, x: nat, y: nat, z: nat, m: nat, cmp: (T, T) -> int)
    requires x < |a| && y < |a| && z < |a|
  {
    || (m == x && Between(a[y], a[x], a[z], cmp))
    || (m == y && Between(a[x], a[y], a[z], cmp))
    || (m == z && Between(a[x], a[z], a[y], cmp))
  }

  ghost predicate Between<T>(p: T, q: T, r: T, cmp: (T, T) -> int) {
    (cmp(p, q) <= 0 && cmp(q, r) <= 0) || (cmp(r, q) <= 0 && cmp(q, p) <= 0)
  }

  function Med3<T(!new)>(a: seq<T>, x: nat, y: nat, z: nat, cmp: (T, T) -> int): (m: nat)
    requires x < |a| && y < |a| && z < |a|
    requires TotalPreorder(cmp)
    ensures IsMedian(a, x, y, z, m, cmp)
  {
    assert Opposite(cmp, a[x], a[y]) && Opposite(cmp, a[y], a[x]);
    assert Opposite(cmp, a[y], a[z]) && Opposite(cmp, a[z], a[y]);
    assert Opposite(cmp, a[x], a[z]) && Opposite(cmp, a[z], a[x]);
    if cmp(a[x], a[y]) < 0 then
      (if cmp(a[y], a[z]) < 0 then y else if cmp(a[x], a[z]) < 0 then z else x)
    else
      (if cmp(a[y], a[z]) > 0 then y else if cmp(a[x], a[z]) < 0 then x else z)
  }

  // ----- Insertion sort -----

  method InsertionSort<T(!new)>(a: array<T>, lo: nat, hi: nat, cmp: (T, T) -> int)
    requires lo <= hi <= a.Length
    requires TotalPreorder(cmp)
    modifies a
    ensures Sorted(a[..], lo, hi, cmp)
    ensures Shuffled(old(a[..]), a[..], lo, hi)
  {
    var pm := lo + 1;
    while pm < hi
      invariant lo < pm && (pm <= hi || lo == hi)
      invariant Sorted(a[..], lo, if pm <= hi then pm else hi, cmp)
      invariant Shuffled(old(a[..]), a[..], lo, hi)
    {
      ghost var before := a[..];
      Sink(a, lo, pm, cmp);
      ShuffledWiden(before, a[..], lo, pm + 1, lo, hi);
      pm := pm + 1;
    }
  }

  /** s[lo..pm + 1] is sorted but for s[pl], which may still have to move down. */
  ghost predicate SortedButFor<T>(s: seq<T>, lo: nat, pm: nat, pl: nat, cmp: (T, T) -> int)
    requires lo <= pl <= pm < |s|
  {
    forall i, j :: lo <= i < j <= pm && j != pl ==> cmp(s[i], s[j]) <= 0
  }

  lemma SinkStep<T(!new)>(s: seq<T>, lo: nat, pm: nat, pl: nat, cmp: (T, T) -> int)
    requires TotalPreorder(cmp)
    requires lo < pl <= pm < |s|
    requires SortedButFor(s, lo, pm, pl, cmp) && cmp(s[pl - 1], s[pl]) > 0
    ensures SortedButFor(Exchanged(s, pl, pl - 1), lo, pm, pl - 1, cmp)
  {
    assert Opposite(cmp, s[pl], s[pl - 1]);
  }

  lemma SinkDone<T(!new)>(s: seq<T>, lo: nat, pm: nat, pl: nat, cmp: (T, T) -> int)
    requires TotalPreorder(cmp)
    requires lo <= pl <= pm < |s|
    requires SortedButFor(s, lo, pm, pl, cmp)
    requires pl == lo || cmp(s[pl - 1], s[pl]) <= 0
    ensures Sorted(s, lo, pm + 1, cmp)
  {
    forall i | lo <= i < pl ensures cmp(s[i], s[pl]) <= 0 {
      if i < pl - 1 {
        assert Chained(cmp, s[i], s[pl - 1], s[pl]);
      }
    }
  }

  /** The inner loop: carries a[pm] down to its place in the sorted a[lo..pm]. */
  method Sink<T(!new)>(a: array<T>, lo: nat, pm: nat, cmp: (T, T) -> int)
    requires lo < pm < a.Length
    requires TotalPreorder(cmp)
    requires Sorted(a[..], lo, pm, cmp)
    modifies a
    ensures Sorted(a[..], lo, pm + 1, cmp)
    ensures Shuffled(old(a[..]), a[..], lo, pm + 1)
  {
    var pl := pm;
    while pl > lo && cmp(a[pl - 1], a[pl]) > 0
      invariant lo <= pl <= pm
      invariant SortedButFor(a[..], lo, pm, pl, cmp)
      invariant Shuffled(old(a[..]), a[..], lo, pm + 1)
    {
      ghost var before := a[..];
      SinkStep(before, lo, pm, pl, cmp);
      Swap(a, pl, pl - 1, lo, pm + 1);
      ShuffledTrans(old(a[..]), before, a[..], lo, pm + 1);
      pl := pl - 1;
    }
    SinkDone(a[..], lo, pm, pl, cmp);
  }

  // ----- Partition -----

  /** The four regions around the part s[pb..pc] still to be scanned; the pivot is s[lo]. */
  ghost predicate FourRegions<T>(s: seq<T>, lo: nat, pa: nat, pb: nat, pc: nat, pd: nat, hi: nat, cmp: (T, T) -> int) {
    && lo < pa <= pb <= pc + 1 <= pd + 1 <= hi <= |s|
    && (forall k :: lo <= k < pa ==> cmp(s[k], s[lo]) == 0)
    && (forall k :: pa <= k < pb ==> cmp(s[k], s[lo]) < 0)
    && (forall k :: pc < k <= pd ==> cmp(s[k], s[lo]) > 0)
    && (forall k :: pd < k < hi ==> cmp(s[k], s[lo]) == 0)
  }

  /** An item equal to the pivot joins the region at the left end. */
  lemma EqualToLeft<T>(s: seq<T>, lo: nat, pa: nat, pb: nat, pc: nat, pd: nat, hi: nat, cmp: (T, T) -> int)
    requires FourRegions(s, lo, pa, pb, pc, pd, hi, cmp)
    requires pb <= pc && cmp(s[pb], s[lo]) == 0
    ensures FourRegions(Exchanged(s, pa, pb), lo, pa + 1, pb + 1, pc, pd, hi, cmp)
  {
  }

  /** An item equal to the pivot joins the region at the right end. */
  lemma EqualToRight<T>(s: seq<T>, lo: nat, pa: nat, pb: nat, pc: nat, pd: nat, hi: nat, cmp: (T, T) -> int)
    requires FourRegions(s, lo, pa, pb, pc, pd, hi, cmp)
    requires pb <= pc && cmp(s[pc], s[lo]) == 0
    ensures FourRegions(Exchanged(s, pc, pd), lo, pa, pb, pc - 1, pd - 1, hi, cmp)
  {
  }

  /** Two items on the wrong side change places. */
  lemma CrossExchange<T>(s: seq<T>, lo: nat, pa: nat, pb: nat, pc: nat, pd: nat, hi: nat, cmp: (T, T) -> int)
    requires FourRegions(s, lo, pa, pb, pc, pd, hi, cmp)
    requires pb <= pc && cmp(s[pb], s[lo]) > 0 && cmp(s[pc], s[lo]) < 0
    ensures FourRegions(Exchanged(s, pb, pc), lo, pa, pb + 1, pc - 1, pd, hi, cmp)
  {
  }

  /** The scan from the left: stops at an item above the pivot. */
  method ScanUp<T(!new)>(a: array<T>, lo: nat, pa: nat, pb: nat, pc: nat, pd: nat, hi: nat, cmp: (T, T) -> int)
    returns (pa': nat, pb': nat, swapped: bool)
    requires hi <= a.Length && FourRegions(a[..], lo, pa, pb, pc, pd, hi, cmp)
    modifies a
    ensures FourRegions(a[..], lo, pa', pb', pc, pd, hi, cmp) && pb <= pb'
    ensures pb' <= pc ==> cmp(a[pb'], a[lo]) > 0
    ensures Shuffled(old(a[..]), a[..], lo, hi)
    ensures pa <= pa' && (swapped <==> pa < pa') && (!swapped ==> a[..] == old(a[..]))
  {
    ghost var s := a[..];
    pa', pb', swapped := pa, pb, false;
    while pb' <= pc && cmp(a[pb'], a[lo]) <= 0
      invariant FourRegions(a[..], lo, pa', pb', pc, pd, hi, cmp) && pb <= pb'
      invariant Shuffled(s, a[..], lo, hi)
      invariant pa <= pa' && (swapped <==> pa < pa') && (!swapped ==> a[..] == s)
      decreases pc + 1 - pb'
    {
      if cmp(a[pb'], a[lo]) == 0 {
        swapped := true;
        ghost var before := a[..];
        EqualToLeft(before, lo, pa', pb', pc, pd, hi, cmp);
        Swap(a, pa', pb', lo, hi);
        ShuffledTrans(s, before, a[..], lo, hi);
        pa' := pa' + 1;
      }
      pb' := pb' + 1;
    }
  }

  /** The scan from the right: stops at an item below the pivot. */
  method ScanDown<T(!new)>(a: array<T>, lo: nat, pa: nat, pb: nat, pc: nat, pd: nat, hi: nat, cmp: (T, T) -> int)
    returns (pc': nat, pd': nat, swapped: bool)
    requires hi <= a.Length && FourRegions(a[..], lo, pa, pb, pc, pd, hi, cmp)
    requires pb <= pc ==> cmp(a[pb], a[lo]) > 0
    modifies a
    ensures FourRegions(a[..], lo, pa, pb, pc', pd', hi, cmp) && pc' <= pc
    ensures pb <= pc' ==> cmp(a[pb], a[lo]) > 0 && cmp(a[pc'], a[lo]) < 0
    ensures Shuffled(old(a[..]), a[..], lo, hi)
    ensures pd' <= pd && (swapped <==> pd' < pd) && (!swapped ==> a[..] == old(a[..]))
  {
    ghost var s := a[..];
    pc', pd', swapped := pc, pd, false;
    while pb <= pc' && cmp(a[pc'], a[lo]) >= 0
      invariant FourRegions(a[..], lo, pa, pb, pc', pd', hi, cmp) && pc' <= pc
      invariant pb <= pc' ==> cmp(a[pb], a[lo]) > 0
      invariant Shuffled(s, a[..], lo, hi)
      invariant pd' <= pd && (swapped <==> pd' < pd) && (!swapped ==> a[..] == s)
      decreases pc' + 1 - pb
    {
      if cmp(a[pc'], a[lo]) == 0 {
        swapped := true;
        ghost var before := a[..];
        EqualToRight(before, lo, pa, pb, pc', pd', hi, cmp);
        Swap(a, pc', pd', lo, hi);
        ShuffledTrans(s, before, a[..], lo, hi);
        pd' := pd' - 1;
      }
      pc' := pc' - 1;
    }
  }

  /** What is known of `swap_cnt`: equal items have been moved to an end, or the item at k has changed place; or nothing has. */
  ghost predicate Counts<T>(s: seq<T>, t: seq<T>, lo: nat, pa: nat, pb: nat, pd: nat, hi: nat, swapCnt: nat, k: nat) {
    && swapCnt <= 1 && |t| == |s| && lo < pa && pd < hi
    && (swapCnt == 0 ==> t == s && pa == lo + 1 && pd == hi - 1)
    && (swapCnt == 1 ==> lo + 1 < pa || pd < hi - 1 || (k < pb <= |s| && t[k] != s[k]))
  }

  /** One round of both scans, and the exchange where they stop. */
  method ScanBoth<T(!new)>(a: array<T>, lo: nat, pa: nat, pb: nat, pc: nat, pd: nat, hi: nat, cmp: (T, T) -> int)
    returns (pa': nat, pb': nat, pc': nat, pd': nat, swapped: bool, crossed: bool)
    requires hi <= a.Length && FourRegions(a[..], lo, pa, pb, pc, pd, hi, cmp)
    modifies a
    ensures FourRegions(a[..], lo, pa', pb', pc', pd', hi, cmp) && Shuffled(old(a[..]), a[..], lo, hi)
    ensures pb <= pb' && pc' <= pc && pa <= pa' && pd' <= pd && (swapped <==> pa < pa' || pd' < pd)
    ensures if crossed then pb < pb' else pb' == pc' + 1
    ensures !swapped && !crossed ==> a[..] == old(a[..])
    ensures !swapped && crossed ==> a[pb' - 1] != old(a[pb' - 1]) && forall k :: 0 <= k < pb' - 1 ==> a[k] == old(a[k])
  {
    ghost var s := a[..];
    var up, down;
    pa', pb', up := ScanUp(a, lo, pa, pb, pc, pd, hi, cmp);
    ghost var s0 := a[..];
    pc', pd', down := ScanDown(a, lo, pa', pb', pc, pd, hi, cmp);
    ShuffledTrans(s, s0, a[..], lo, hi);
    swapped, crossed := up || down, pb' <= pc';
    if crossed {
      s0 := a[..];
      Cross(a, lo, pa', pb', pc', pd', hi, cmp);
      ShuffledTrans(s, s0, a[..], lo, hi);
      pb', pc' := pb' + 1, pc' - 1;
    }
  }

  method Cross<T(!new)>(a: array<T>, lo: nat, pa: nat, pb: nat, pc: nat, pd: nat, hi: nat, cmp: (T, T) -> int)
    requires hi <= a.Length && FourRegions(a[..], lo, pa, pb, pc, pd, hi, cmp)
    requires pb <= pc && cmp(a[pb], a[lo]) > 0 && cmp(a[pc], a[lo]) < 0
    modifies a
    ensures FourRegions(a[..], lo, pa, pb + 1, pc - 1, pd, hi, cmp) && Shuffled(old(a[..]), a[..], lo, hi)
    ensures a[pb] != old(a[pb]) && forall k :: 0 <= k < pb ==> a[k] == old(a[k])
  {
    CrossExchange(a[..], lo, pa, pb, pc, pd, hi, cmp);
    Swap(a, pb, pc, lo, hi);
  }

  /** The scanning loops, from `pa = pb` to `pb > pc`. */
  method Partition<T(!new)>(a: array<T>, lo: nat, hi: nat, cmp: (T, T) -> int)
    returns (pa: nat, pb: nat, pc: nat, pd: nat, swapCnt: nat)
    requires lo + 1 < hi <= a.Length
    requires cmp(a[lo], a[lo]) == 0
    modifies a
    ensures FourRegions(a[..], lo, pa, pb, pc, pd, hi, cmp) && pb == pc + 1
    ensures Shuffled(old(a[..]), a[..], lo, hi)
    ensures swapCnt == 0 <==> a[..] == old(a[..]) && pa == lo + 1 && pd == hi - 1
  {
    ghost var s := a[..];
    ghost var k: nat := 0;
    swapCnt := 0;
    pa, pb := lo + 1, lo + 1;
    pc, pd := hi - 1, hi - 1;
    var crossed := true;
    while crossed
      invariant FourRegions(a[..], lo, pa, pb, pc, pd, hi, cmp)
      invariant Shuffled(s, a[..], lo, hi) && Counts(s, a[..], lo, pa, pb, pd, hi, swapCnt, k)
      invariant !crossed ==> pb == pc + 1
      decreases crossed, pc + 1 - pb
    {
      ghost var s0 := a[..];
      var swapped;
      pa, pb, pc, pd, swapped, crossed := ScanBoth(a, lo, pa, pb, pc, pd, hi, cmp);
      ShuffledTrans(s, s0, a[..], lo, hi);
      if crossed && swapCnt == 0 { k := pb - 1; }
      if swapped || crossed { swapCnt := 1; }
    }
  }

  // ----- Gathering the equal items in the middle -----

  /** Below v, equal to v, above v. */
  ghost predicate Arranged<T>(s: seq<T>, lo: nat, l: nat, g: nat, hi: nat, v: T, cmp: (T, T) -> int) {
    && lo <= l < g <= hi <= |s|
    && (forall k :: lo <= k < l ==> cmp(s[k], v) < 0)
    && (forall k :: l <= k < g ==> cmp(s[k], v) == 0)
    && (forall k :: g <= k < hi ==> cmp(s[k], v) > 0)
  }

  function Min(x: nat, y: nat): (m: nat) {
    if x < y then x else y
  }

  /** Between the two exchanges: the left half is arranged around v, the right half is as scanned. */
  ghost predicate LeftArranged<T>(s: seq<T>, lo: nat, l: nat, pb: nat, pd: nat, hi: nat, v: T, cmp: (T, T) -> int) {
    && lo <= l < pb <= pd + 1 <= hi <= |s|
    && (forall k :: lo <= k < l ==> cmp(s[k], v) < 0)
    && (forall k :: l <= k < pb ==> cmp(s[k], v) == 0)
    && (forall k :: pb <= k <= pd ==> cmp(s[k], v) > 0)
    && (forall k :: pd < k < hi ==> cmp(s[k], v) == 0)
  }

  lemma LeftExchange<T>(s: seq<T>, t: seq<T>, lo: nat, pa: nat, pb: nat, pc: nat, pd: nat, hi: nat, cmp: (T, T) -> int)
    requires FourRegions(s, lo, pa, pb, pc, pd, hi, cmp) && pb == pc + 1
    requires var r := Min(pa - lo, pb - pa); BlocksExchanged(s, t, lo, pb - r, r)
    ensures LeftArranged(t, lo, lo + (pb - pa), pb, pd, hi, s[lo], cmp)
  {
  }

  lemma RightExchange<T>(s: seq<T>, t: seq<T>, lo: nat, l: nat, pb: nat, pd: nat, hi: nat, v: T, cmp: (T, T) -> int)
    requires LeftArranged(s, lo, l, pb, pd, hi, v, cmp)
    requires var r := Min(pd + 1 - pb, hi - pd - 1); BlocksExchanged(s, t, pb, hi - r, r)
    ensures Arranged(t, lo, l, hi - (pd + 1 - pb), hi, v, cmp)
  {
  }

  /** The first vecswap: the items equal to the pivot on the left move next to the scanning boundary. */
  method GatherLeft<T(!new)>(a: array<T>, lo: nat, pa: nat, pb: nat, pc: nat, pd: nat, hi: nat, cmp: (T, T) -> int)
    requires hi <= a.Length
    requires FourRegions(a[..], lo, pa, pb, pc, pd, hi, cmp) && pb == pc + 1
    modifies a
    ensures LeftArranged(a[..], lo, lo + (pb - pa), pb, pd, hi, old(a[lo]), cmp)
    ensures Shuffled(old(a[..]), a[..], lo, hi)
  {
    ghost var s := a[..];
    var r := Min(pa - lo, pb - pa);
    VecSwap(a, lo, pb - r, r, lo, hi);
    LeftExchange(s, a[..], lo, pa, pb, pc, pd, hi, cmp);
  }

  /** The second vecswap, for those on the right. */
  method GatherRight<T(!new)>(a: array<T>, ghost lo: nat, ghost l: nat, pb: nat, pd: nat, hi: nat,
                              ghost v: T, cmp: (T, T) -> int)
    requires hi <= a.Length
    requires LeftArranged(a[..], lo, l, pb, pd, hi, v, cmp)
    modifies a
    ensures Arranged(a[..], lo, l, hi - (pd + 1 - pb), hi, v, cmp)
    ensures Shuffled(old(a[..]), a[..], lo, hi)
  {
    ghost var s := a[..];
    var r := Min(pd + 1 - pb, hi - pd - 1);
    VecSwap(a, pb, hi - r, r, lo, hi);
    RightExchange(s, a[..], lo, l, pb, pd, hi, v, cmp);
  }

  // ----- The sort -----

  /** Everything before m is in place: sorted, and no larger than anything from m to hi. */
  ghost predicate DoneBelow<T>(s: seq<T>, lo: nat, m: nat, hi: nat, cmp: (T, T) -> int) {
    && lo <= m <= hi <= |s|
    && Sorted(s, lo, m, cmp)
    && (forall i, j :: lo <= i < m <= j < hi ==> cmp(s[i], s[j]) <= 0)
  }

  /** Rearranging what is above m keeps what is below it done. */
  lemma DoneBelowKept<T(!new)>(s: seq<T>, t: seq<T>, lo: nat, m: nat, hi: nat, cmp: (T, T) -> int)
    requires DoneBelow(s, lo, m, hi, cmp)
    requires Shuffled(s, t, m, hi)
    ensures DoneBelow(t, lo, m, hi, cmp)
  {
    forall i, j | lo <= i < m <= j < hi ensures cmp(t[i], t[j]) <= 0 {
      var j' := ShuffledOrigin(s, t, m, hi, j);
    }
  }

  /** Sorting the part below the pivot keeps the arrangement. */
  lemma ArrangedKept<T(!new)>(s: seq<T>, t: seq<T>, lo: nat, l: nat, g: nat, hi: nat, v: T, cmp: (T, T) -> int)
    requires Arranged(s, lo, l, g, hi, v, cmp)
    requires Shuffled(s, t, lo, l)
    ensures Arranged(t, lo, l, g, hi, v, cmp)
  {
    forall k | lo <= k < l ensures cmp(t[k], v) < 0 {
      var k' := ShuffledOrigin(s, t, lo, l, k);
    }
  }

  /** After the recursive call, everything up to the last item equal to the pivot is done. */
  lemma DoneBelowExtended<T(!new)>(s: seq<T>, lo: nat, m: nat, l: nat, g: nat, hi: nat, v: T, cmp: (T, T) -> int)
    requires TotalPreorder(cmp)
    requires DoneBelow(s, lo, m, hi, cmp)
    requires Arranged(s, m, l, g, hi, v, cmp)
    requires Sorted(s, m, l, cmp)
    ensures DoneBelow(s, lo, g, hi, cmp)
  {
    forall i, j | lo <= i < g && i < j < hi ensures cmp(s[i], s[j]) <= 0 {
      if m <= i && l <= j {
        assert Opposite(cmp, s[j], v) && Chained(cmp, s[i], v, s[j]);
      }
    }
  }

  /** Choice of the pivot: median of three, or of three medians of three. */
  function Pivot<T(!new)>(a: seq<T>, lo: nat, n: nat, cmp: (T, T) -> int): (pm: nat)
    requires 7 <= n && lo + n <= |a|
    requires TotalPreorder(cmp)
    ensures lo <= pm < lo + n
  {
    var pl, pm, pn := lo, lo + n / 2, lo + n - 1;
    if n <= 7 then pm
    else if n <= 40 then Med3(a, pl, pm, pn, cmp)
    else
      var d := n / 8;
      Med3(a,
           Med3(a, pl, pl + d, pl + 2 * d, cmp),
           Med3(a, pm - d, pm, pm + d, cmp),
           Med3(a, pn - 2 * d, pn - d, pn, cmp),
           cmp)
  }

  /**
   One pass over a[lo..lo + n]. Either it is sorted by insertion (few items, or a partition that
   exchanged nothing), or it is arranged around a pivot with a[lo..l] and a[g..lo + n] left to sort.
   */
  method Divide<T(!new)>(a: array<T>, lo: nat, n: nat, cmp: (T, T) -> int)
    returns (finished: bool, l: nat, g: nat, ghost v: T)
    requires n > 0 && lo + n <= a.Length
    requires TotalPreorder(cmp)
    modifies a
    ensures Shuffled(old(a[..]), a[..], lo, lo + n)
    ensures finished ==> Sorted(a[..], lo, lo + n, cmp)
    ensures !finished ==> Arranged(a[..], lo, l, g, lo + n, v, cmp)
  {
    var hi := lo + n;
    ghost var s0 := a[..];
    finished, l, g, v := true, lo, lo, a[lo];
    if n < 7 {
      InsertionSort(a, lo, hi, cmp);
      return;
    }
    var pm := Pivot(a[..], lo, n, cmp);
    Swap(a, lo, pm, lo, hi);
    ghost var s1 := a[..];
    v := a[lo];
    assert Opposite(cmp, v, v);
    var pa, pb, pc, pd, swapCnt := Partition(a, lo, hi, cmp);
    ghost var s2 := a[..];
    v := a[lo];
    ShuffledTrans(s0, s1, s2, lo, hi);
    if swapCnt == 0 {
      InsertionSort(a, lo, hi, cmp);
    } else {
      GatherLeft(a, lo, pa, pb, pc, pd, hi, cmp);
      ghost var s3 := a[..];
      GatherRight(a, lo, lo + (pb - pa), pb, pd, hi, v, cmp);
      ShuffledTrans(s2, s3, a[..], lo, hi);
      finished, l, g := false, lo + (pb - pa), hi - (pd - pc);
    }
    ShuffledTrans(s0, s2, a[..], lo, hi);
  }

  /** `qsort` on the `count` items that begin at `start`. */
  method Sort<T(!new)>(a: array<T>, start: nat, count: nat, cmp: (T, T) -> int)
    requires start + count <= a.Length
    requires TotalPreorder(cmp)
    modifies a
    ensures Sorted(a[..], start, start + count, cmp)
    ensures Shuffled(old(a[..]), a[..], start, start + count)
    decreases count
  {
    ghost var s := a[..];
    var hi := start + count;
    var lo := start;
    while lo < hi
      invariant start <= lo <= hi
      invariant DoneBelow(a[..], start, lo, hi, cmp)
      invariant Shuffled(s, a[..], start, hi)
      decreases hi - lo
    {
      ghost var s0 := a[..];
      var finished, l, g, v := Divide(a, lo, hi - lo, cmp);
      ghost var s1 := a[..];
      if finished {
        Finished(s, s0, s1, start, lo, hi, cmp);
        return;
      }
      if l - lo > 1 {
        Sort(a, lo, l - lo, cmp);
      }
      Round(s, s0, s1, a[..], start, lo, l, g, hi, v, cmp);
      // The part above the pivot is sorted by going round again.
      lo := g;
      if hi - lo <= 1 {
        return;
      }
    }
  }

  /** The two ways out of the loop through the insertion sort. */
  lemma Finished<T(!new)>(s: seq<T>, s0: seq<T>, t: seq<T>, start: nat, lo: nat, hi: nat, cmp: (T, T) -> int)
    requires DoneBelow(s0, start, lo, hi, cmp) && Shuffled(s, s0, start, hi)
    requires Shuffled(s0, t, lo, hi) && Sorted(t, lo, hi, cmp)
    ensures Sorted(t, start, hi, cmp) && Shuffled(s, t, start, hi)
  {
    DoneBelowKept(s0, t, start, lo, hi, cmp);
    ShuffledWiden(s0, t, lo, hi, start, hi);
    ShuffledTrans(s, s0, t, start, hi);
  }

  /** One round of partition, gather and recursion moves the done part up past the pivot. */
  lemma Round<T(!new)>(s: seq<T>, s0: seq<T>, s1: seq<T>, t: seq<T>,
                       start: nat, lo: nat, l: nat, g: nat, hi: nat, v: T, cmp: (T, T) -> int)
    requires TotalPreorder(cmp)
    requires DoneBelow(s0, start, lo, hi, cmp) && Shuffled(s, s0, start, hi)
    requires Shuffled(s0, s1, lo, hi) && Arranged(s1, lo, l, g, hi, v, cmp)
    requires Shuffled(s1, t, lo, l) && Sorted(t, lo, l, cmp)
    ensures DoneBelow(t, start, g, hi, cmp) && Shuffled(s, t, start, hi)
  {
    ArrangedKept(s1, t, lo, l, g, hi, v, cmp);
    ShuffledWiden(s1, t, lo, l, lo, hi);
    ShuffledTrans(s0, s1, t, lo, hi);
    DoneBelowKept(s0, t, start, lo, hi, cmp);
    DoneBelowExtended(t, start, lo, l, g, hi, v, cmp);
    ShuffledWiden(s0, t, lo, hi, start, hi);
    ShuffledTrans(s, s0, t, start, hi);
  }
}
