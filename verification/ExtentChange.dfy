/**
 Model of changes to an extent tree over several levels in libext2fs/extent.c: an extent is inserted, which may split
 nodes; one is deleted, which may remove nodes; and the keys above a first extent are corrected.
 */
module ExtentChange {
  import opened ExtentList
  import opened HashTree
  import opened HashSpans
  import opened ExtentTree

  // ----- Leaves with wider bounds -----

  ghost predicate WiderSpan(x: Span, y: Span) {
    y.block == x.block && y.lo <= x.lo && x.hi <= y.hi
  }

  /** The same leaves, with bounds as far apart as before, or farther. */
  ghost predicate Wider(s: seq<Span>, s': seq<Span>) {
    |s'| == |s| && forall i :: 0 <= i < |s| ==> WiderSpan(s[i], s'[i])
  }

  lemma WiderTogether(a: seq<Span>, a': seq<Span>, b: seq<Span>, b': seq<Span>)
    requires Wider(a, a') && Wider(b, b')
    ensures Wider(a + b, a' + b')
  {
    forall i | 0 <= i < |a + b| ensures WiderSpan((a + b)[i], (a' + b')[i]) {
      if i < |a| {
        assert WiderSpan(a[i], a'[i]);
      } else {
        assert WiderSpan(b[i - |a|], b'[i - |a|]);
      }
    }
  }

  lemma {:induction false} WiderKeeps(s: seq<Span>, s': seq<Span>, leaves: map<int, seq<Extent>>, max: nat)
    requires Wider(s, s') && AllFit(s, leaves, max)
    ensures AllFit(s', leaves, max) && Flat(s', leaves) == Flat(s, leaves)
  {
    forall i | 0 <= i < |s'| ensures FitsAt(s'[i], leaves, max) {
      assert WiderSpan(s[i], s'[i]) && FitsAt(s[i], leaves, max);
    }
    WiderFlat(s, s', leaves);
  }

  lemma {:induction false} WiderFlat(s: seq<Span>, s': seq<Span>, leaves: map<int, seq<Extent>>)
    requires Wider(s, s')
    ensures Flat(s', leaves) == Flat(s, leaves)
  {
    if s != [] {
      assert WiderSpan(s[0], s'[0]);
      assert Wider(s[1..], s'[1..]) by {
        forall i | 0 <= i < |s[1..]| ensures WiderSpan(s[1..][i], s'[1..][i]) {
          assert WiderSpan(s[i + 1], s'[i + 1]);
        }
      }
      WiderFlat(s[1..], s'[1..], leaves);
    }
  }

  /** A tree between wider bounds. */
  lemma {:induction false} WiderTree(t: Tree, d: nat, lo: nat, hi: nat, lo': nat, hi': nat)
    requires Shape(t, d) && Ordered(t, lo, hi) && lo' <= lo && hi <= hi'
    ensures Ordered(t, lo', hi') && Wider(Spans(t, d, lo, hi), Spans(t, d, lo', hi'))
    decreases d, 0
  {
    if d == 0 {
      assert WiderSpan(Spans(t, d, lo, hi)[0], Spans(t, d, lo', hi')[0]);
    } else {
      forall n | 0 <= n < |t.kids|
        ensures WiderKid(t, n, lo, hi, t, 0, lo', hi')
        ensures Ordered(t.kids[n], Bound(t.keys, n, lo', hi'), Bound(t.keys, n + 1, lo', hi'))
      {
        WiderTree(t.kids[n], d - 1, Bound(t.keys, n, lo, hi), Bound(t.keys, n + 1, lo, hi),
                  Bound(t.keys, n, lo', hi'), Bound(t.keys, n + 1, lo', hi'));
      }
      KidSpansWider(t, d, 0, |t.kids|, lo, hi, t, 0, lo', hi');
    }
  }

  /** The same kid between wider bounds, in another place of another node. */
  ghost predicate WiderKid(t: Tree, n: nat, lo: nat, hi: nat, t': Tree, shift: int, lo': nat, hi': nat) {
    && t.Inner? && t'.Inner? && n < |t.kids| == |t.keys| && 0 <= n + shift < |t'.kids| == |t'.keys|
    && t'.kids[n + shift] == t.kids[n]
    && Bound(t'.keys, n + shift, lo', hi') <= Bound(t.keys, n, lo, hi)
    && Bound(t.keys, n + 1, lo, hi) <= Bound(t'.keys, n + shift + 1, lo', hi')
  }

  lemma {:induction false} KidSpansWider(t: Tree, d: nat, i: nat, j: nat, lo: nat, hi: nat, t': Tree, shift: int, lo': nat, hi': nat)
    requires Shape(t, d) && 0 < d && i <= j <= |t.kids| && Shape(t', d) && 0 <= i + shift && j + shift <= |t'.kids| && Ordered(t, lo, hi)
    requires forall n :: i <= n < j ==> WiderKid(t, n, lo, hi, t', shift, lo', hi')
    ensures Wider(KidSpans(t, d, i, j, lo, hi), KidSpans(t', d, i + shift, j + shift, lo', hi'))
    decreases d - 1, j + 1
  {
    if i < j {
      var n := j - 1;
      assert WiderKid(t, n, lo, hi, t', shift, lo', hi');
      KidSpansWider(t, d, i, n, lo, hi, t', shift, lo', hi');
      WiderTree(t.kids[n], d - 1, Bound(t.keys, n, lo, hi), Bound(t.keys, j, lo, hi),
                Bound(t'.keys, n + shift, lo', hi'), Bound(t'.keys, n + shift + 1, lo', hi'));
      KidSpansLast(t, d, i, j, lo, hi);
      KidSpansLast(t', d, i + shift, j + shift, lo', hi');
      WiderTogether(KidSpans(t, d, i, n, lo, hi), KidSpans(t', d, i + shift, n + shift, lo', hi'),
                    Spans(t.kids[n], d - 1, Bound(t.keys, n, lo, hi), Bound(t.keys, j, lo, hi)),
                    Spans(t.kids[n], d - 1, Bound(t'.keys, n + shift, lo', hi'), Bound(t'.keys, n + shift + 1, lo', hi')));
    }
  }

  // ----- Removing a leaf -----

  /** What is left of a node: nothing, or a node. */
  datatype Pruned = Gone | Left(t: Tree)

  function Without<T>(s: seq<T>, i: nat): (r: seq<T>)
    requires i < |s|
    ensures |r| == |s| - 1 && forall j :: 0 <= j < |r| ==> r[j] == if j < i then s[j] else s[j + 1]
  {
    s[..i] + s[i + 1..]
  }

  /** The node without the leaf that g leads to, and without the nodes that are empty then. */
  function Prune(t: Tree, d: nat, g: nat): (p: Pruned)
    requires Shape(t, d)
    decreases d
  {
    if d == 0 then Gone
    else
      var i := At(t.keys, g);
      match Prune(t.kids[i], d - 1, g)
      case Left(kid) => Left(Inner(t.block, t.keys, t.kids[i := kid]))
      case Gone => if |t.kids| == 1 then Gone else Left(Inner(t.block, Without(t.keys, i), Without(t.kids, i)))
  }

  /** Around the removed leaf all leaves are as they were, with bounds that may be wider. */
  ghost predicate PrunedTo(t: Tree, d: nat, g: nat, lo: nat, hi: nat, p: Pruned, before: seq<Span>, behind: seq<Span>,
                           before': seq<Span>, behind': seq<Span>, m: Span) {
    && Shape(t, d) && m.block == Route(t, d, g) && Spans(t, d, lo, hi) == before + [m] + behind
    && Wider(before, before') && Wider(behind, behind')
    && match p
       case Gone => before == behind == []
       case Left(t') => Shape(t', d) && Ordered(t', lo, hi) && Spans(t', d, lo, hi) == before' + behind'
  }

  lemma {:induction false} PruneSpans(t: Tree, d: nat, g: nat, lo: nat, hi: nat)
    returns (before: seq<Span>, behind: seq<Span>, before': seq<Span>, behind': seq<Span>, m: Span)
    requires Shape(t, d) && Ordered(t, lo, hi)
    ensures PrunedTo(t, d, g, lo, hi, Prune(t, d, g), before, behind, before', behind', m)
    decreases d
  {
    if d == 0 {
      before, behind, before', behind', m := [], [], [], [], Span(t.block, lo, hi);
      assert Spans(t, d, lo, hi) == [] + [m] + [];
    } else {
      var i := At(t.keys, g);
      var lo', hi' := Bound(t.keys, i, lo, hi), Bound(t.keys, i + 1, lo, hi);
      var a, b, a', b';
      a, b, a', b', m := PruneSpans(t.kids[i], d - 1, g, lo', hi');
      KidSpansAround(t, d, i, lo, hi);
      var p, q, n := KidSpans(t, d, 0, i, lo, hi), KidSpans(t, d, i + 1, |t.kids|, lo, hi), |t.kids|;
      before, behind := p + a, b + q;
      Wrap(p, a, [m], b, q);
      match Prune(t.kids[i], d - 1, g)
      case Left(kid) =>
        KidPruned(t, d, i, kid, lo, hi);
        WiderSame(p);
        WiderSame(q);
        WiderTogether(p, p, a, a');
        WiderTogether(b, b', q, q);
        before', behind' := p + a', b' + q;
        Wrap2(p, a', b', q);
      case Gone =>
        before', behind' := p, q;
        WiderSame(p);
        WiderSame(q);
        assert before == p && behind == q;
        if n == 1 {
          assert p == [] && q == [];
        } else {
          before', behind' := KidRemoved(t, d, i, lo, hi);
        }
    }
  }

  lemma Wrap2<T>(p: seq<T>, a: seq<T>, b: seq<T>, q: seq<T>)
    ensures p + (a + b) + q == (p + a) + (b + q)
  {
  }

  lemma WiderSame(s: seq<Span>)
    ensures Wider(s, s)
  {
  }

  lemma KidPruned(t: Tree, d: nat, i: nat, kid: Tree, lo: nat, hi: nat)
    requires Shape(t, d) && 0 < d && i < |t.kids| && Shape(kid, d - 1) && Ordered(t, lo, hi)
    requires Ordered(kid, Bound(t.keys, i, lo, hi), Bound(t.keys, i + 1, lo, hi))
    ensures var t' := Inner(t.block, t.keys, t.kids[i := kid]);
            Shape(t', d) && Ordered(t', lo, hi) &&
            Spans(t', d, lo, hi) ==
            KidSpans(t, d, 0, i, lo, hi) + Spans(kid, d - 1, Bound(t.keys, i, lo, hi), Bound(t.keys, i + 1, lo, hi)) +
            KidSpans(t, d, i + 1, |t.kids|, lo, hi)
  {
    var t' := Inner(t.block, t.keys, t.kids[i := kid]);
    KidSpansAround(t', d, i, lo, hi);
    OtherKids(t, d, i, t', lo, hi);
  }

  lemma WithoutInOrder(keys: seq<nat>, i: nat, lo: nat, hi: nat)
    requires i < |keys| && KeysInOrder(keys, lo, hi)
    ensures KeysInOrder(Without(keys, i), lo, hi)
  {
    var r := Without(keys, i);
    forall a | 0 < a < |r| ensures lo <= r[a] <= hi {
    }
    forall a, b | 0 < a < b < |r| ensures r[a] <= r[b] {
    }
  }

  /** The bounds of a kid that stays are those it had, or wider. */
  lemma WithoutBounds(keys: seq<nat>, i: nat, lo: nat, hi: nat, n: nat)
    requires i < |keys| && 1 < |keys| && KeysInOrder(keys, lo, hi) && n < |keys| && n != i
    ensures var k, r := if n < i then n else n - 1, Without(keys, i);
            Bound(r, k, lo, hi) <= Bound(keys, n, lo, hi) && Bound(keys, n + 1, lo, hi) <= Bound(r, k + 1, lo, hi)
  {
  }

  lemma RemovedOrdered(t: Tree, d: nat, i: nat, lo: nat, hi: nat)
    requires Shape(t, d) && 0 < d && i < |t.kids| && 1 < |t.kids| && Ordered(t, lo, hi)
    ensures var t' := Inner(t.block, Without(t.keys, i), Without(t.kids, i)); Shape(t', d) && Ordered(t', lo, hi)
  {
    var t' := Inner(t.block, Without(t.keys, i), Without(t.kids, i));
    WithoutInOrder(t.keys, i, lo, hi);
    forall j | 0 <= j < |t'.kids| ensures Ordered(t'.kids[j], Bound(t'.keys, j, lo, hi), Bound(t'.keys, j + 1, lo, hi)) {
      KeptOrdered(t, d, i, lo, hi, if j < i then j else j + 1);
    }
  }

  lemma KidRemoved(t: Tree, d: nat, i: nat, lo: nat, hi: nat) returns (before': seq<Span>, behind': seq<Span>)
    requires Shape(t, d) && 0 < d && i < |t.kids| && 1 < |t.kids| && Ordered(t, lo, hi)
    ensures var t' := Inner(t.block, Without(t.keys, i), Without(t.kids, i));
            Shape(t', d) && Ordered(t', lo, hi) && Spans(t', d, lo, hi) == before' + behind'
    ensures Wider(KidSpans(t, d, 0, i, lo, hi), before') && Wider(KidSpans(t, d, i + 1, |t.kids|, lo, hi), behind')
  {
    var t', n := Inner(t.block, Without(t.keys, i), Without(t.kids, i)), |t.kids|;
    RemovedOrdered(t, d, i, lo, hi);
    EarlierKids(t, d, i, lo, hi, t');
    LaterKids(t, d, i, lo, hi, t', i + 1, n);
    KidSpansJoin(t', d, 0, i, n - 1, lo, hi);
    before', behind' := KidSpans(t', d, 0, i, lo, hi), KidSpans(t', d, i, n - 1, lo, hi);
  }

  lemma EarlierKid(t: Tree, i: nat, lo: nat, hi: nat, t': Tree, j: nat)
    requires t.Inner? && Ordered(t, lo, hi) && j < i < |t.kids|
    requires t'.Inner? && t'.keys == Without(t.keys, i) && t'.kids == Without(t.kids, i)
    ensures WiderKid(t, j, lo, hi, t', 0, lo, hi)
  {
    WithoutBounds(t.keys, i, lo, hi, j);
  }

  lemma EarlierKids(t: Tree, d: nat, i: nat, lo: nat, hi: nat, t': Tree)
    requires Shape(t, d) && 0 < d && i < |t.kids| && 1 < |t.kids| && Ordered(t, lo, hi)
    requires Shape(t', d) && t' == Inner(t.block, Without(t.keys, i), Without(t.kids, i))
    ensures Wider(KidSpans(t, d, 0, i, lo, hi), KidSpans(t', d, 0, i, lo, hi))
  {
    forall j | 0 <= j < i ensures WiderKid(t, j, lo, hi, t', 0, lo, hi) {
      EarlierKid(t, i, lo, hi, t', j);
    }
    KidSpansWider(t, d, 0, i, lo, hi, t', 0, lo, hi);
  }

  lemma LaterKid(t: Tree, i: nat, lo: nat, hi: nat, t': Tree, j: nat)
    requires t.Inner? && Ordered(t, lo, hi) && i < j < |t.kids|
    requires t'.Inner? && t'.keys == Without(t.keys, i) && t'.kids == Without(t.kids, i)
    ensures WiderKid(t, j, lo, hi, t', -1, lo, hi)
  {
    WithoutBounds(t.keys, i, lo, hi, j);
  }

  lemma LaterKids(t: Tree, d: nat, i: nat, lo: nat, hi: nat, t': Tree, first: nat, n: nat)
    requires Shape(t, d) && 0 < d && 1 < n && n == |t.kids| && first == i + 1 <= n && Ordered(t, lo, hi)
    requires Shape(t', d) && t' == Inner(t.block, Without(t.keys, i), Without(t.kids, i))
    ensures Wider(KidSpans(t, d, first, n, lo, hi), KidSpans(t', d, first - 1, n - 1, lo, hi))
  {
    forall j | first <= j < n ensures WiderKid(t, j, lo, hi, t', -1, lo, hi) {
      LaterKid(t, i, lo, hi, t', j);
    }
    KidSpansWider(t, d, first, n, lo, hi, t', -1, lo, hi);
  }

  lemma KeptOrdered(t: Tree, d: nat, i: nat, lo: nat, hi: nat, n: nat)
    requires Shape(t, d) && 0 < d && i < |t.kids| && 1 < |t.kids| && Ordered(t, lo, hi) && n < |t.kids| && n != i
    ensures var k, r := if n < i then n else n - 1, Without(t.keys, i);
            Ordered(t.kids[n], Bound(r, k, lo, hi), Bound(r, k + 1, lo, hi))
  {
    var k, r := if n < i then n else n - 1, Without(t.keys, i);
    WithoutBounds(t.keys, i, lo, hi, n);
    WiderTree(t.kids[n], d - 1, Bound(t.keys, n, lo, hi), Bound(t.keys, n + 1, lo, hi), Bound(r, k, lo, hi), Bound(r, k + 1, lo, hi));
  }

  /** The blocks of the nodes that are removed. */
  function PrunedBlocks(t: Tree, d: nat, g: nat): (bs: seq<nat>)
    requires Shape(t, d)
    decreases d
  {
    if d == 0 then [t.block]
    else
      var kid := t.kids[At(t.keys, g)];
      PrunedBlocks(kid, d - 1, g) + if Prune(t, d, g) == Gone then [t.block] else []
  }

  lemma {:induction false} PruneCaps(t: Tree, d: nat, g: nat, m: nat, n: nat)
    requires Shape(t, d) && Caps(t, m, n)
    ensures Prune(t, d, g).Left? ==> Caps(Prune(t, d, g).t, m, n)
    decreases d
  {
    if d > 0 {
      PruneCaps(t.kids[At(t.keys, g)], d - 1, g, n, n);
    }
  }

  /** The blocks of what is left are of the tree, and not those that are removed. */
  lemma {:induction false} PruneOn(t: Tree, d: nat, g: nat, b: nat)
    requires Shape(t, d)
    ensures b in PrunedBlocks(t, d, g) ==> On(t, b)
    ensures Prune(t, d, g).Left? && On(Prune(t, d, g).t, b) ==> On(t, b)
    ensures Prune(t, d, g).Left? ==> Prune(t, d, g).t.block == t.block && Prune(t, d, g).t.Inner?
    decreases d
  {
    if d > 0 {
      var i := At(t.keys, g);
      PruneOn(t.kids[i], d - 1, g, b);
      match Prune(t.kids[i], d - 1, g)
      case Left(kid) => ReplacedOn(t, i, kid, b);
      case Gone =>
        if |t.kids| > 1 {
          RemovedOn(t, i, b);
        }
    }
  }

  lemma ReplacedOn(t: Tree, i: nat, kid: Tree, b: nat)
    requires t.Inner? && i < |t.kids| && (On(kid, b) ==> On(t.kids[i], b))
    ensures On(Inner(t.block, t.keys, t.kids[i := kid]), b) ==> On(t, b)
  {
    var kids := t.kids[i := kid];
    if On(Inner(t.block, t.keys, kids), b) && b != t.block {
      var k :| 0 <= k < |kids| && On(kids[k], b);
      assert On(t.kids[k], b);
    }
  }

  lemma RemovedOn(t: Tree, i: nat, b: nat)
    requires t.Inner? && i < |t.kids| == |t.keys|
    ensures On(Inner(t.block, Without(t.keys, i), Without(t.kids, i)), b) ==> On(t, b)
  {
    var kids := Without(t.kids, i);
    if On(Inner(t.block, Without(t.keys, i), kids), b) && b != t.block {
      var k :| 0 <= k < |kids| && On(kids[k], b);
      assert On(t.kids[if k < i then k else k + 1], b);
    }
  }

  lemma PrunedKidSeparate(t: Tree, i: nat, kid: Tree)
    requires t.Inner? && i < |t.kids| && Separate(t) && Separate(kid) && forall b :: On(kid, b) ==> On(t.kids[i], b)
    ensures Separate(Inner(t.block, t.keys, t.kids[i := kid]))
  {
    var t' := Inner(t.block, t.keys, t.kids[i := kid]);
    forall a, b | 0 <= a < b < |t'.kids| ensures Apart(t'.kids[a], t'.kids[b]) {
      assert Apart(t.kids[a], t.kids[b]);
    }
  }

  lemma RemovedKidSeparate(t: Tree, i: nat)
    requires t.Inner? && i < |t.kids| == |t.keys| && Separate(t)
    ensures Separate(Inner(t.block, Without(t.keys, i), Without(t.kids, i)))
  {
    var t' := Inner(t.block, Without(t.keys, i), Without(t.kids, i));
    forall a | 0 <= a < |t'.kids| ensures Separate(t'.kids[a]) && !On(t'.kids[a], t'.block) {
      var a' := if a < i then a else a + 1;
      assert Separate(t.kids[a']);
    }
    forall a, b | 0 <= a < b < |t'.kids| ensures Apart(t'.kids[a], t'.kids[b]) {
      var a', b' := if a < i then a else a + 1, if b < i then b else b + 1;
      assert Apart(t.kids[a'], t.kids[b']);
    }
  }

  lemma {:induction false} PruneSeparate(t: Tree, d: nat, g: nat)
    requires Shape(t, d) && Separate(t)
    ensures Prune(t, d, g).Left? ==> Separate(Prune(t, d, g).t)
    decreases d
  {
    if d > 0 {
      var i := At(t.keys, g);
      PruneSeparate(t.kids[i], d - 1, g);
      match Prune(t.kids[i], d - 1, g)
      case Left(kid) =>
        forall b | On(kid, b) ensures On(t.kids[i], b) {
          PruneOn(t.kids[i], d - 1, g, b);
        }
        PrunedKidSeparate(t, i, kid);
      case Gone =>
        if |t.kids| > 1 {
          RemovedKidSeparate(t, i);
        }
    }
  }

  /** A removed block is not in the tree any more. */
  lemma {:induction false} PrunedOff(t: Tree, d: nat, g: nat, b: nat)
    requires Shape(t, d) && Separate(t) && b in PrunedBlocks(t, d, g) && Prune(t, d, g).Left?
    ensures !On(Prune(t, d, g).t, b)
    decreases d
  {
    var i, t' := At(t.keys, g), Prune(t, d, g).t;
    PruneOn(t.kids[i], d - 1, g, b);
    assert On(t.kids[i], b) && b != t.block;
    if Prune(t.kids[i], d - 1, g).Left? {
      PrunedOff(t.kids[i], d - 1, g, b);
    }
    forall k | 0 <= k < |t'.kids| ensures !On(t'.kids[k], b) {
      var k' := if Prune(t.kids[i], d - 1, g).Left? || k < i then k else k + 1;
      if k' != i {
        assert if k' < i then Apart(t.kids[k'], t.kids[i]) else Apart(t.kids[i], t.kids[k']);
      }
    }
  }

  /** Every block of the tree is removed or stays. */
  lemma {:induction false} PrunedOrStays(t: Tree, d: nat, g: nat, b: nat)
    requires Shape(t, d) && On(t, b)
    ensures b in PrunedBlocks(t, d, g) || (Prune(t, d, g).Left? && On(Prune(t, d, g).t, b))
    decreases d
  {
    if d > 0 && b != t.block {
      var i := At(t.keys, g);
      var k :| 0 <= k < |t.kids| && On(t.kids[k], b);
      if k == i {
        PrunedOrStays(t.kids[i], d - 1, g, b);
      }
      StaysOn(t, d, g, k, b);
    }
  }

  lemma StaysOn(t: Tree, d: nat, g: nat, k: nat, b: nat)
    requires Shape(t, d) && 0 < d && k < |t.kids| && On(t.kids[k], b)
    requires k == At(t.keys, g) ==>
               b in PrunedBlocks(t.kids[k], d - 1, g) || (Prune(t.kids[k], d - 1, g).Left? && On(Prune(t.kids[k], d - 1, g).t, b))
    ensures b in PrunedBlocks(t, d, g) || (Prune(t, d, g).Left? && On(Prune(t, d, g).t, b))
  {
    var i := At(t.keys, g);
    match Prune(t.kids[i], d - 1, g)
    case Left(kid) =>
      assert On(t.kids[i := kid][k], b) || b in PrunedBlocks(t, d, g);
    case Gone =>
      if k != i {
        var r := Without(t.kids, i);
        assert r[if k < i then k else k - 1] == t.kids[k];
      }
  }

  ghost predicate NoneTwice(bs: seq<nat>) {
    forall i, j :: 0 <= i < j < |bs| ==> Differ(bs, i, j)
  }

  lemma {:induction false} PrunedOnce(t: Tree, d: nat, g: nat)
    requires Shape(t, d) && Separate(t)
    ensures NoneTwice(PrunedBlocks(t, d, g))
    decreases d
  {
    if d > 0 {
      var kid := t.kids[At(t.keys, g)];
      PrunedOnce(kid, d - 1, g);
      var bs, all := PrunedBlocks(kid, d - 1, g), PrunedBlocks(t, d, g);
      forall i, j | 0 <= i < j < |all| ensures Differ(all, i, j) {
        if j < |bs| {
          assert Differ(bs, i, j);
        } else {
          PruneOn(kid, d - 1, g, bs[i]);
        }
      }
    }
  }

  /** How many entries the node h levels above the leaf of g has. */
  function Width(t: Tree, d: nat, g: nat, h: nat): (n: nat)
    requires Shape(t, d) && 0 < h <= d
  {
    assert Shape(Sub(t, d, g, d - h), h);
    |Sub(t, d, g, d - h).keys|
  }

  /** The blocks are those of the leaf of g and of the nodes above it, as far up as they have no other entry. */
  ghost predicate PrunedWay(t: Tree, d: nat, g: nat, bs: seq<nat>, top: nat) {
    && Shape(t, d) && 0 < |bs| <= top
    && (forall h: nat :: h < |bs| ==> h <= d && bs[h] == Sub(t, d, g, d - h).block)
    && (forall h: nat :: 0 < h < |bs| ==> h <= d && Width(t, d, g, h) == 1)
    && (|bs| < top ==> |bs| <= d && Width(t, d, g, |bs|) > 1)
  }

  lemma KidWay(t: Tree, d: nat, g: nat, h: nat)
    requires Shape(t, d) && h < d
    ensures Sub(t.kids[At(t.keys, g)], d - 1, g, d - 1 - h) == Sub(t, d, g, d - h)
    ensures 0 < h ==> Width(t.kids[At(t.keys, g)], d - 1, g, h) == Width(t, d, g, h)
  {
    var kid, k := t.kids[At(t.keys, g)], d - h;
    assert Sub(t, d, g, k) == Sub(kid, d - 1, g, k - 1);
  }

  lemma {:induction false} PrunedAre(t: Tree, d: nat, g: nat)
    requires Shape(t, d)
    ensures PrunedWay(t, d, g, PrunedBlocks(t, d, g), d + 1)
    ensures Prune(t, d, g) == Gone <==> |PrunedBlocks(t, d, g)| == d + 1
    decreases d
  {
    if d > 0 {
      var kid := t.kids[At(t.keys, g)];
      PrunedAre(kid, d - 1, g);
      WayFromKid(t, d, g, kid, PrunedBlocks(kid, d - 1, g));
      WayEnds(t, d, g, PrunedBlocks(kid, d - 1, g));
    }
  }

  /** What is so of the way below a kid is so of the way from here. */
  lemma WayFromKid(t: Tree, d: nat, g: nat, kid: Tree, bs: seq<nat>)
    requires Shape(t, d) && 0 < d && kid == t.kids[At(t.keys, g)] && PrunedWay(kid, d - 1, g, bs, d)
    ensures PrunedWay(t, d, g, bs, d)
  {
    forall h: nat | h < d
      ensures Sub(kid, d - 1, g, d - 1 - h) == Sub(t, d, g, d - h)
      ensures 0 < h ==> Width(kid, d - 1, g, h) == Width(t, d, g, h)
    {
      KidWay(t, d, g, h);
    }
  }

  /** At the top it goes on if all below are empty and there is one entry only. */
  lemma WayEnds(t: Tree, d: nat, g: nat, bs: seq<nat>)
    requires Shape(t, d) && 0 < d && PrunedWay(t, d, g, bs, d)
    ensures PrunedWay(t, d, g, if |bs| == d && |t.kids| == 1 then bs + [t.block] else bs, d + 1)
  {
    assert Sub(t, d, g, 0) == t && Width(t, d, g, d) == |t.keys|;
  }

  // ----- One leaf with other extents -----

  lemma AroundLeaf(t: Tree, d: nat, before: seq<Span>, m: Span, behind: seq<Span>)
    requires Shape(t, d) && Separate(t) && Spans(t, d, 0, LBLK_LIMIT) == before + [m] + behind
    ensures Elsewhere(before, m.block, m.block) && Elsewhere(behind, m.block, m.block)
  {
    SpansDistinct(t, d, 0, LBLK_LIMIT);
    var s := before + [m] + behind;
    assert s[|before|] == m;
    forall i | 0 <= i < |before| ensures before[i].block != m.block {
      assert s[i] == before[i];
    }
    forall i | 0 <= i < |behind| ensures behind[i].block != m.block {
      assert s[|before| + 1 + i] == behind[i];
    }
  }

  /** A leaf with other extents: all others stay, and the tree is in order exactly if these lie between the leaf's bounds. */
  lemma LeafChanged(t: Tree, d: nat, leaves: map<int, seq<Extent>>, max: nat, g: nat, b: nat, s: seq<Extent>)
    returns (f: seq<Extent>, f': seq<Extent>)
    requires Shape(t, d) && Separate(t) && AllFit(Spans(t, d, 0, LBLK_LIMIT), leaves, max) && b == Route(t, d, g)
    ensures Flat(Spans(t, d, 0, LBLK_LIMIT), leaves) == f + LeafAt(leaves, b) + f'
    ensures Flat(Spans(t, d, 0, LBLK_LIMIT), leaves[b := s]) == f + s + f'
    ensures AllFit(Spans(t, d, 0, LBLK_LIMIT), leaves[b := s], max) <==>
            s != [] && LeafFits(s, Lo(t, d, g, d, 0), Hi(t, d, g, d, LBLK_LIMIT), max)
  {
    var before, behind := SpanOfHash(t, d, g, 0, LBLK_LIMIT);
    var m, leaves' := Span(b, Lo(t, d, g, d, 0), Hi(t, d, g, d, LBLK_LIMIT)), leaves[b := s];
    AroundLeaf(t, d, before, m, behind);
    FitAround(before, [m], behind, leaves, max);
    FitAround(before, [m], behind, leaves', max);
    OthersFit(before, leaves, leaves', b, b, max);
    OthersFit(behind, leaves, leaves', b, b, max);
    FlatAround(before, [m], behind, leaves);
    FlatAround(before, [m], behind, leaves');
    OneFlat(m, leaves);
    OneFlat(m, leaves');
    OneFits(m, leaves', max);
    f, f' := Flat(before, leaves), Flat(behind, leaves);
  }

  lemma OneFits(m: Span, leaves: map<int, seq<Extent>>, max: nat)
    ensures AllFit([m], leaves, max) <==> FitsAt(m, leaves, max)
  {
    if AllFit([m], leaves, max) {
      assert FitsAt([m][0], leaves, max);
    }
  }

  lemma Changed(t: Tree, d: nat, leaves: map<int, seq<Extent>>, m: nat, n: nat, g: nat, b: nat, s: seq<Extent>)
    returns (f: seq<Extent>, f': seq<Extent>)
    requires IsTree(t, d, leaves, m, n) && b == Route(t, d, g)
    ensures Extents(t, d, leaves) == f + LeafAt(leaves, b) + f' && Extents(t, d, leaves[b := s]) == f + s + f'
    ensures IsTree(t, d, leaves[b := s], m, n) <==>
            (0 < d ==> s != []) && LeafFits(s, Lo(t, d, g, d, 0), Hi(t, d, g, d, LBLK_LIMIT), Cap(d, m, n))
  {
    if d == 0 {
      f, f' := [], [];
      OneFlat(Span(t.block, 0, LBLK_LIMIT), leaves);
      OneFlat(Span(t.block, 0, LBLK_LIMIT), leaves[b := s]);
      assert [] + s + [] == s && [] + LeafAt(leaves, b) + [] == LeafAt(leaves, b);
    } else {
      f, f' := LeafChanged(t, d, leaves, n, g, b, s);
    }
  }

  // ----- Deleting -----

  /** Only one extent holds a logical block. */
  lemma OnePlace(s: seq<Extent>, i: nat, j: nat, g: nat)
    requires WellFormed(s) && i < |s| && j < |s| && s[i].Contains(g) && s[j].Contains(g)
    ensures i == j
  {
  }

  /** The place in its leaf of an extent of the tree. */
  lemma PlaceInLeaf(t: Tree, d: nat, leaves: map<int, seq<Extent>>, m: nat, n: nat, g: nat, j: nat, f: seq<Extent>, f': seq<Extent>)
    returns (i: nat)
    requires IsTree(t, d, leaves, m, n) && j < |Extents(t, d, leaves)| && Extents(t, d, leaves)[j].Contains(g)
    requires Extents(t, d, leaves) == f + LeafAt(leaves, Route(t, d, g)) + f'
    ensures i < |LeafAt(leaves, Route(t, d, g))| && GotoFrom(LeafAt(leaves, Route(t, d, g)), g, 0) == (true, i)
    ensures j == |f| + i && Extents(t, d, leaves)[j] == LeafAt(leaves, Route(t, d, g))[i]
  {
    var all, s := Extents(t, d, leaves), LeafAt(leaves, Route(t, d, g));
    ExtentsWellFormed(t, d, leaves, m, n);
    LooksRight(t, d, leaves, m, n, g);
    LookupNone(all, g);
    LookupNone(s, g);
    if !GotoFrom(s, g, 0).0 {
      GotoMisses(s, g, 0);
    }
    i := GotoFrom(s, g, 0).1;
    assert all[|f| + i] == s[i];
    OnePlace(all, |f| + i, j, g);
  }

  /** The last extent of a leaf goes, and the leaf with it. */
  lemma LeafRemoved(t: Tree, d: nat, leaves: map<int, seq<Extent>>, m: nat, n: nat, g: nat, t': Tree)
    returns (f: seq<Extent>, f': seq<Extent>)
    requires 0 < d && IsTree(t, d, leaves, m, n) && Prune(t, d, g) == Left(t')
    ensures IsTree(t', d, leaves, m, n) && Extents(t, d, leaves) == f + LeafAt(leaves, Route(t, d, g)) + f'
    ensures Extents(t', d, leaves) == f + f'
  {
    var before, behind, before', behind', x := PruneSpans(t, d, g, 0, LBLK_LIMIT);
    f, f' := Flat(before, leaves), Flat(behind, leaves);
    FlatAround(before, [x], behind, leaves);
    OneFlat(x, leaves);
    FitAround(before, [x], behind, leaves, n);
    WiderKeeps(before, before', leaves, n);
    WiderKeeps(behind, behind', leaves, n);
    FlatConcat(before', behind', leaves);
    TogetherFit(before', behind', leaves, n);
    PruneCaps(t, d, g, m, n);
    PruneSeparate(t, d, g);
  }

  lemma TogetherFit(a: seq<Span>, b: seq<Span>, leaves: map<int, seq<Extent>>, max: nat)
    requires AllFit(a, leaves, max) && AllFit(b, leaves, max)
    ensures AllFit(a + b, leaves, max)
  {
    FitAround(a, b, [], leaves, max);
    assert a + b + [] == a + b;
  }

  /** It was the last leaf: then the root is an empty leaf. */
  lemma AllRemoved(t: Tree, d: nat, leaves: map<int, seq<Extent>>, m: nat, n: nat, g: nat)
    requires 0 < d && IsTree(t, d, leaves, m, n) && Prune(t, d, g) == Gone
    ensures Extents(t, d, leaves) == LeafAt(leaves, Route(t, d, g))
    ensures IsTree(Leaf(t.block), 0, leaves[t.block := []], m, n) && Extents(Leaf(t.block), 0, leaves[t.block := []]) == []
  {
    var before, behind, before', behind', x := PruneSpans(t, d, g, 0, LBLK_LIMIT);
    assert [] + [x] + [] == [x];
    OneFlat(x, leaves);
    OneFlat(Span(t.block, 0, LBLK_LIMIT), leaves[t.block := []]);
  }

  /** The tree without the leaf of g, and the blocks that are free then. The root always stays. */
  function Remaining(t: Tree, d: nat, g: nat): (t': Tree)
    requires Shape(t, d)
  {
    match Prune(t, d, g)
    case Left(t') => t'
    case Gone => Leaf(t.block)
  }

  function Freed(t: Tree, d: nat, g: nat): (bs: seq<nat>)
    requires Shape(t, d) && 0 < d
  {
    PrunedBlocks(t.kids[At(t.keys, g)], d - 1, g)
  }

  /** Freed blocks were of the tree, and are not any more; no others are new. */
  lemma FreedOff(t: Tree, d: nat, g: nat, b: nat)
    requires Shape(t, d) && 0 < d && Separate(t)
    ensures b in Freed(t, d, g) ==> On(t, b) && !On(Remaining(t, d, g), b)
    ensures On(Remaining(t, d, g), b) ==> On(t, b)
  {
    PruneOn(t, d, g, b);
    PruneOn(t.kids[At(t.keys, g)], d - 1, g, b);
    if b in Freed(t, d, g) && Prune(t, d, g).Left? {
      PrunedOff(t, d, g, b);
    }
  }

  /** The freed blocks are those that were of the tree and are not any more, each once. */
  ghost predicate Released(t: Tree, t': Tree, freed: seq<nat>) {
    (forall b :: b in freed <==> On(t, b) && !On(t', b)) && NoneTwice(freed)
  }

  lemma FreedIs(t: Tree, d: nat, g: nat)
    requires Shape(t, d) && 0 < d && Separate(t)
    ensures Released(t, Remaining(t, d, g), Freed(t, d, g)) && PrunedWay(t, d, g, Freed(t, d, g), d)
  {
    var kid := t.kids[At(t.keys, g)];
    forall b ensures b in Freed(t, d, g) <==> On(t, b) && !On(Remaining(t, d, g), b) {
      FreedOff(t, d, g, b);
      if On(t, b) {
        PrunedOrStays(t, d, g, b);
      }
    }
    PrunedOnce(kid, d - 1, g);
    PrunedAre(kid, d - 1, g);
    FreedWay(t, d, g, Freed(t, d, g));
  }

  lemma FreedWay(t: Tree, d: nat, g: nat, bs: seq<nat>)
    requires Shape(t, d) && 0 < d && PrunedWay(t.kids[At(t.keys, g)], d - 1, g, bs, d)
    ensures PrunedWay(t, d, g, bs, d)
  {
    forall h: nat | h < d
      ensures Sub(t.kids[At(t.keys, g)], d - 1, g, d - 1 - h) == Sub(t, d, g, d - h)
      ensures 0 < h ==> Width(t.kids[At(t.keys, g)], d - 1, g, h) == Width(t, d, g, h)
    {
      KidWay(t, d, g, h);
    }
  }

  /** Freed blocks may be had again. */
  lemma FreedFree(free: seq<nat>, t: Tree, t': Tree, freed: seq<nat>)
    requires FreeOf(free, t) && FreeOf(free, t') && Released(t, t', freed)
    ensures FreeOf(free + freed, t')
  {
    var all := free + freed;
    forall i, j | 0 <= i < j < |all| ensures Differ(all, i, j) {
      if j < |free| {
        assert Differ(free, i, j);
      } else if i < |free| {
        assert free[i] in free && freed[j - |free|] in freed;
      } else {
        assert Differ(freed, i - |free|, j - |free|);
      }
    }
  }

  /** The tree after the last extent of a leaf has gone. */
  lemma Shrunk(s: State, m: nat, n: nat, g: nat, s': State) returns (f: seq<Extent>, f': seq<Extent>)
    requires Whole(s, m, n) && 0 < s.depth && s'.tree == Remaining(s.tree, s.depth, g) && s'.free == s.free
    requires if Prune(s.tree, s.depth, g) == Gone then s'.depth == 0 && s'.leaves == s.leaves[s.tree.block := []]
             else s'.depth == s.depth && s'.leaves == s.leaves
    ensures Whole(s', m, n) && ExtentsOf(s) == f + LeafAt(s.leaves, Route(s.tree, s.depth, g)) + f' && ExtentsOf(s') == f + f'
    ensures s'.depth == 0 ==> ExtentsOf(s') == []
  {
    if Prune(s.tree, s.depth, g) == Gone {
      AllRemoved(s.tree, s.depth, s.leaves, m, n, g);
      f, f' := [], [];
      assert [] + LeafAt(s.leaves, Route(s.tree, s.depth, g)) + [] == LeafAt(s.leaves, Route(s.tree, s.depth, g));
    } else {
      f, f' := LeafRemoved(s.tree, s.depth, s.leaves, m, n, g, s'.tree);
    }
    forall b <- s.free ensures !On(s'.tree, b) {
      FreedOff(s.tree, s.depth, g, b);
    }
  }

  lemma TakenOut(f: seq<Extent>, s: seq<Extent>, f': seq<Extent>, i: nat, j: nat)
    requires i < |s| && j == |f| + i
    ensures f + Without(s, i) + f' == Without(f + s + f', j)
    ensures |s| == 1 ==> f + f' == Without(f + s + f', j)
  {
  }

  lemma StillFits(s: seq<Extent>, i: nat, lo: nat, hi: nat, max: nat)
    requires LeafFits(s, lo, hi, max) && i < |s|
    ensures LeafFits(Without(s, i), lo, hi, max)
  {
  }

  /** The leaf of an extent keeps others. */
  lemma LeafShrunk(s: State, m: nat, n: nat, g: nat, i: nat, j: nat, b: nat, s': State)
    requires Whole(s, m, n) && b == Route(s.tree, s.depth, g) && j < |ExtentsOf(s)| && ExtentsOf(s)[j].Contains(g)
    requires i < |LeafAt(s.leaves, b)| && GotoFrom(LeafAt(s.leaves, b), g, 0) == (true, i)
    requires |LeafAt(s.leaves, b)| > 1 || s.depth == 0
    requires s' == s.(leaves := s.leaves[b := Without(LeafAt(s.leaves, b), i)])
    ensures Whole(s', m, n) && ExtentsOf(s') == Without(ExtentsOf(s), j)
  {
    var leaf := LeafAt(s.leaves, b);
    var f, f' := Changed(s.tree, s.depth, s.leaves, m, n, g, b, Without(leaf, i));
    var i' := PlaceInLeaf(s.tree, s.depth, s.leaves, m, n, g, j, f, f');
    TakenOut(f, leaf, f', i, j);
    BoundsOfLeaf(s.tree, s.depth, s.leaves, m, n, g);
    StillFits(leaf, i, Lo(s.tree, s.depth, g, s.depth, 0), Hi(s.tree, s.depth, g, s.depth, LBLK_LIMIT), Cap(s.depth, m, n));
  }

  /** It was the only one of its leaf. */
  lemma LastTaken(s: State, m: nat, n: nat, g: nat, j: nat, s': State)
    requires Whole(s, m, n) && 0 < s.depth && s'.tree == Remaining(s.tree, s.depth, g) && s'.free == s.free
    requires if Prune(s.tree, s.depth, g) == Gone then s'.depth == 0 && s'.leaves == s.leaves[s.tree.block := []]
             else s'.depth == s.depth && s'.leaves == s.leaves
    requires j < |ExtentsOf(s)| && ExtentsOf(s)[j].Contains(g) && |LeafAt(s.leaves, Route(s.tree, s.depth, g))| == 1
    ensures Whole(s', m, n) && ExtentsOf(s') == Without(ExtentsOf(s), j) && (s'.depth == 0 ==> ExtentsOf(s') == [])
  {
    var f, f' := Shrunk(s, m, n, g, s');
    var i := PlaceInLeaf(s.tree, s.depth, s.leaves, m, n, g, j, f, f');
    TakenOut(f, LeafAt(s.leaves, Route(s.tree, s.depth, g)), f', i, j);
  }

  lemma BoundsOfLeaf(t: Tree, d: nat, leaves: map<int, seq<Extent>>, m: nat, n: nat, g: nat)
    requires IsTree(t, d, leaves, m, n)
    ensures LeafFits(LeafAt(leaves, Route(t, d, g)), Lo(t, d, g, d, 0), Hi(t, d, g, d, LBLK_LIMIT), Cap(d, m, n))
  {
    if d > 0 {
      RoutedFits(t, d, leaves, m, n, g);
    }
  }

  /**
   `ext2fs_extent_delete` of the extent that holds g, number j of all: it is gone, and all others keep their order. A leaf
   without extents is removed, and with it the nodes above it as far up as they have no other entry, but not the root;
   their blocks, and no others, are taken off the count of the inode and given back.
   */
  method Delete(h: Handle, g: nat, ghost j: nat) returns (freed: seq<nat>)
    requires h.Valid() && j < |ExtentsOf(h.Now())| && ExtentsOf(h.Now())[j].Contains(g)
    modifies h`depth, h`tree, h`leaves, h`free, h`blocks
    ensures h.Valid() && ExtentsOf(h.Now()) == Without(old(ExtentsOf(h.Now())), j)
    ensures Released(old(h.tree), h.tree, freed) && h.blocks == old(h.blocks) - |freed| && h.free == old(h.free) + freed
    ensures if old(|LeafAt(h.leaves, Route(h.tree, h.depth, g))| > 1 || h.depth == 0) then freed == [] && h.tree == old(h.tree)
            else PrunedWay(old(h.tree), old(h.depth), g, freed, old(h.depth))
    ensures h.depth == old(h.depth) || (h.depth == 0 && ExtentsOf(h.Now()) == [])
  {
    var b := Route(h.tree, h.depth, g);
    var leaf := LeafAt(h.leaves, b);
    if |leaf| > 1 || h.depth == 0 {
      freed := [];
      TakeFromLeaf(h, g, j, b);
      assert h.free + [] == h.free;
    } else {
      ghost var i := LeafHas(h.Now(), h.rootMax, h.nodeMax, g, j, b);
      freed := RemoveLeaf(h, g, j);
    }
  }

  lemma LeafHas(s: State, m: nat, n: nat, g: nat, j: nat, b: nat) returns (i: nat)
    requires Whole(s, m, n) && b == Route(s.tree, s.depth, g) && j < |ExtentsOf(s)| && ExtentsOf(s)[j].Contains(g)
    ensures i < |LeafAt(s.leaves, b)| && GotoFrom(LeafAt(s.leaves, b), g, 0) == (true, i)
  {
    var f, f' := Changed(s.tree, s.depth, s.leaves, m, n, g, b, LeafAt(s.leaves, b));
    i := PlaceInLeaf(s.tree, s.depth, s.leaves, m, n, g, j, f, f');
  }

  method TakeFromLeaf(h: Handle, g: nat, ghost j: nat, b: nat)
    requires h.Valid() && b == Route(h.tree, h.depth, g) && j < |ExtentsOf(h.Now())| && ExtentsOf(h.Now())[j].Contains(g)
    requires |LeafAt(h.leaves, b)| > 1 || h.depth == 0
    modifies h`leaves
    ensures h.Valid() && ExtentsOf(h.Now()) == Without(old(ExtentsOf(h.Now())), j)
  {
    ghost var s := h.Now();
    ghost var i0 := LeafHas(s, h.rootMax, h.nodeMax, g, j, b);
    var leaf := LeafAt(h.leaves, b);
    var (found, i) := GotoFrom(leaf, g, 0);
    h.leaves := h.leaves[b := Without(leaf, i)];
    LeafShrunk(s, h.rootMax, h.nodeMax, g, i, j, b, h.Now());
  }

  method RemoveLeaf(h: Handle, g: nat, ghost j: nat) returns (freed: seq<nat>)
    requires h.Valid() && 0 < h.depth && j < |ExtentsOf(h.Now())| && ExtentsOf(h.Now())[j].Contains(g)
    requires |LeafAt(h.leaves, Route(h.tree, h.depth, g))| == 1
    modifies h`depth, h`tree, h`leaves, h`free, h`blocks
    ensures h.Valid() && ExtentsOf(h.Now()) == Without(old(ExtentsOf(h.Now())), j)
    ensures Released(old(h.tree), h.tree, freed) && h.blocks == old(h.blocks) - |freed| && h.free == old(h.free) + freed
    ensures PrunedWay(old(h.tree), old(h.depth), g, freed, old(h.depth))
    ensures h.depth == old(h.depth) || (h.depth == 0 && ExtentsOf(h.Now()) == [])
  {
    ghost var s := h.Now();
    freed := Freed(h.tree, h.depth, g);
    var t := Remaining(h.tree, h.depth, g);
    if Prune(h.tree, h.depth, g) == Gone {
      h.leaves, h.depth := h.leaves[h.tree.block := []], 0;
    }
    h.tree, h.blocks := t, h.blocks - |freed|;
    LastTaken(s, h.rootMax, h.nodeMax, g, j, h.Now());
    FreedIs(s.tree, s.depth, g);
    FreedFree(h.free, s.tree, h.tree, freed);
    h.free := h.free + freed;
  }

  // ----- Inserting -----

  function InsertedAt(s: seq<Extent>, k: nat, e: Extent): (r: seq<Extent>)
    requires k <= |s|
  {
    s[..k] + [e] + s[k..]
  }

  /** The extent has its place between those before and behind place k. */
  ghost predicate Between(s: seq<Extent>, k: nat, e: Extent) {
    k <= |s| && ValidExtent(e) && (k > 0 ==> s[k - 1].End() <= e.lblk) && (k < |s| ==> e.End() <= s[k].lblk)
  }

  /** A list with one extent more fits in a leaf exactly if that extent does. */
  lemma InsertedFits(s: seq<Extent>, k: nat, e: Extent, lo: nat, hi: nat, max: nat)
    requires LeafFits(s, lo, hi, max) && |s| < max && Between(s, k, e)
    ensures LeafFits(InsertedAt(s, k, e), lo, hi, max) <==> lo <= e.lblk && e.End() <= hi
  {
    var r := InsertedAt(s, k, e);
    assert r[k] == e;
    if lo <= e.lblk && e.End() <= hi {
      forall i | 0 <= i < |r| ensures ValidExtent(r[i]) && lo <= r[i].lblk && r[i].End() <= hi {
        assert r[i] == if i < k then s[i] else if i == k then e else s[i - 1];
      }
      forall i, j | 0 <= i < j < |r| ensures r[i].End() <= r[j].lblk {
        InsertedApart(s, k, e, i, j);
      }
    }
  }

  lemma InsertedApart(s: seq<Extent>, k: nat, e: Extent, i: nat, j: nat)
    requires WellFormed(s) && Between(s, k, e) && i < j <= |s|
    ensures InsertedAt(s, k, e)[i].End() <= InsertedAt(s, k, e)[j].lblk
  {
  }

  lemma InsertedBetween(f: seq<Extent>, s: seq<Extent>, f': seq<Extent>, p: nat, k: nat, e: Extent)
    requires p <= |s| && k == |f| + p
    ensures f + InsertedAt(s, p, e) + f' == InsertedAt(f + s + f', k, e)
  {
  }

  lemma BetweenInLeaf(f: seq<Extent>, s: seq<Extent>, f': seq<Extent>, p: nat, k: nat, e: Extent)
    requires p <= |s| && k == |f| + p && Between(f + s + f', k, e)
    ensures Between(s, p, e)
  {
    var all := f + s + f';
    assert p > 0 ==> all[k - 1] == s[p - 1];
    assert p < |s| ==> all[k] == s[p];
  }

  /** The handle stands on extent j, or there is none; place k is behind it or before it. */
  ghost predicate StandsOn(s: seq<Extent>, g: nat, after: bool, j: nat, k: nat) {
    if s == [] then k == 0 else j < |s| && s[j].Contains(g) && k == if after then j + 1 else j
  }

  /** Where in the leaf of g that is. */
  function LeafPlace(s: seq<Extent>, g: nat, after: bool): (p: nat)
    ensures p <= |s|
  {
    if s == [] then 0 else var i := GotoFrom(s, g, 0).1; if after then i + 1 else i
  }

  lemma PlaceIs(t: Tree, d: nat, leaves: map<int, seq<Extent>>, m: nat, n: nat, g: nat, after: bool, j: nat, k: nat,
                f: seq<Extent>, f': seq<Extent>)
    requires IsTree(t, d, leaves, m, n) && StandsOn(Extents(t, d, leaves), g, after, j, k)
    requires Extents(t, d, leaves) == f + LeafAt(leaves, Route(t, d, g)) + f'
    ensures k == |f| + LeafPlace(LeafAt(leaves, Route(t, d, g)), g, after)
  {
    if Extents(t, d, leaves) != [] {
      var i := PlaceInLeaf(t, d, leaves, m, n, g, j, f, f');
    }
  }

  /** A leaf with room gets one extent more. */
  lemma LeafGrown(u: State, m: nat, n: nat, g: nat, after: bool, j: nat, k: nat, e: Extent, b: nat, p: nat, s': State)
    requires Whole(u, m, n) && !Full(u.tree, u.depth, u.leaves, 0, g, m, n) && b == Route(u.tree, u.depth, g)
    requires StandsOn(ExtentsOf(u), g, after, j, k) && Between(ExtentsOf(u), k, e) && p == LeafPlace(LeafAt(u.leaves, b), g, after)
    requires s' == u.(leaves := u.leaves[b := InsertedAt(LeafAt(u.leaves, b), p, e)])
    ensures ExtentsOf(s') == InsertedAt(ExtentsOf(u), k, e)
    ensures Whole(s', m, n) <==> Lo(u.tree, u.depth, g, u.depth, 0) <= e.lblk && e.End() <= Hi(u.tree, u.depth, g, u.depth, LBLK_LIMIT)
    ensures GrownAt(LeafAt(u.leaves, b), p, e, Cap(u.depth, m, n))
  {
    var leaf := LeafAt(u.leaves, b);
    var f, f' := Changed(u.tree, u.depth, u.leaves, m, n, g, b, InsertedAt(leaf, p, e));
    PlaceIs(u.tree, u.depth, u.leaves, m, n, g, after, j, k, f, f');
    InsertedBetween(f, leaf, f', p, k, e);
    BetweenInLeaf(f, leaf, f', p, k, e);
    BoundsOfLeaf(u.tree, u.depth, u.leaves, m, n, g);
    InsertedFits(leaf, p, e, Lo(u.tree, u.depth, g, u.depth, 0), Hi(u.tree, u.depth, g, u.depth, LBLK_LIMIT), Cap(u.depth, m, n));
  }

  /** Behind the current extent, what was between the bounds of the leaf still is. */
  lemma BehindFits(t: Tree, d: nat, t': Tree, d': nat, s: seq<Extent>, g: nat, j: nat, e: Extent)
    requires WellFormed(s) && Bounded(t, d, t', d', s, g) && Ordered(t', 0, LBLK_LIMIT) && g < LBLK_LIMIT
    requires j < |s| && s[j].Contains(g) && Between(s, j + 1, e) && e.End() <= Hi(t, d, g, d, LBLK_LIMIT)
    ensures Lo(t', d', g, d', 0) <= e.lblk && e.End() <= Hi(t', d', g, d', LBLK_LIMIT)
  {
    SubOrdered(t', d', g, d', 0, LBLK_LIMIT);
    var hi := Hi(t', d', g, d', LBLK_LIMIT);
    if hi != Hi(t, d, g, d, LBLK_LIMIT) {
      var p :| 0 <= p < |s| && s[p].lblk == hi;
      assert j < p;
      assert j + 1 < p ==> s[j + 1].End() <= s[p].lblk;
    }
  }

  /**
   `ext2fs_extent_insert` before or behind the extent that holds g, number j of all: it comes to place k, and all others
   keep their order. A full leaf is split first. The tree is in order then exactly if the new extent lies between the
   bounds of the leaf; behind the current extent it does so if it did before.
   */
  method Insert(h: Handle, g: nat, after: bool, noSplit: bool, e: Extent, ghost j: nat, ghost k: nat)
    returns (err: Error, ghost u: State)
    requires h.Valid() && g < LBLK_LIMIT && StandsOn(ExtentsOf(h.Now()), g, after, j, k) && Between(ExtentsOf(h.Now()), k, e)
    modifies h`depth, h`tree, h`leaves, h`free, h`blocks
    ensures err == if !old(Full(h.tree, h.depth, h.leaves, 0, g, h.rootMax, h.nodeMax)) then Ok
                   else if noSplit then CantInsert
                   else if old(Need(h.tree, h.depth, h.leaves, 0, g, h.rootMax, h.nodeMax) > |h.free|) then NoSpace else Ok
    ensures err != Ok ==> h.Valid() && ExtentsOf(h.Now()) == old(ExtentsOf(h.Now()))
    ensures err == Ok ==> Grown(u, h.Now(), h.rootMax, h.nodeMax, g, e) && ExtentsOf(h.Now()) == InsertedAt(old(ExtentsOf(h.Now())), k, e)
    ensures err == Ok ==> Readied(old(h.Now()), u, g)
    ensures err == Ok && after && old(ExtentsOf(h.Now())) != [] && e.End() <= old(Hi(h.tree, h.depth, g, h.depth, LBLK_LIMIT)) ==>
              h.Valid()
  {
    ghost var s := h.Now();
    err := MakeReady(h, g, noSplit);
    u := h.Now();
    if err == Ok {
      InsertInLeaf(h, g, after, e, j, k);
      if after && ExtentsOf(s) != [] && e.End() <= Hi(s.tree, s.depth, g, s.depth, LBLK_LIMIT) {
        UpperFits(s, u, h.rootMax, h.nodeMax, g, after, e, j, k);
      }
    }
  }

  /** A full leaf is split. */
  method MakeReady(h: Handle, g: nat, noSplit: bool) returns (err: Error)
    requires h.Valid() && g < LBLK_LIMIT
    modifies h`depth, h`tree, h`leaves, h`free, h`blocks
    ensures h.Valid() && ExtentsOf(h.Now()) == old(ExtentsOf(h.Now()))
    ensures err == if !old(Full(h.tree, h.depth, h.leaves, 0, g, h.rootMax, h.nodeMax)) then Ok
                   else if noSplit then CantInsert
                   else if old(Need(h.tree, h.depth, h.leaves, 0, g, h.rootMax, h.nodeMax) > |h.free|) then NoSpace else Ok
    ensures err == Ok ==> !Full(h.tree, h.depth, h.leaves, 0, g, h.rootMax, h.nodeMax) && Readied(old(h.Now()), h.Now(), g)
  {
    ghost var s := h.Now();
    FullCount(s, h.rootMax, h.nodeMax, g);
    if !Full(h.tree, h.depth, h.leaves, 0, g, h.rootMax, h.nodeMax) {
      BoundedSame(s.tree, s.depth, ExtentsOf(s), g);
      return Ok;
    }
    if noSplit {
      return CantInsert;
    }
    err := h.NodeSplit(g, 0, true);
  }

  /** The leaf of g has room: no extent has been touched, and the bounds of the leaf are as before or at an extent. */
  ghost predicate Readied(s: State, u: State, g: nat) {
    && Shape(s.tree, s.depth) && Shape(u.tree, u.depth) && ExtentsOf(u) == ExtentsOf(s)
    && Bounded(s.tree, s.depth, u.tree, u.depth, ExtentsOf(s), g) && (ExtentsOf(s) == [] ==> u == s)
  }

  lemma EmptyIsRoot(s: State, m: nat, n: nat, g: nat)
    requires Whole(s, m, n) && ExtentsOf(s) == []
    ensures s.depth == 0
  {
    if s.depth > 0 {
      NotEmpty(s.tree, s.depth, s.leaves, m, n, 0, g);
      var f, f' := Changed(s.tree, s.depth, s.leaves, m, n, g, Route(s.tree, s.depth, g), []);
    }
  }

  lemma UpperFits(s: State, u: State, m: nat, n: nat, g: nat, after: bool, e: Extent, j: nat, k: nat)
    requires Whole(s, m, n) && Whole(u, m, n) && Readied(s, u, g) && g < LBLK_LIMIT
    requires StandsOn(ExtentsOf(s), g, after, j, k) && Between(ExtentsOf(s), k, e)
    requires after ==> e.End() <= Hi(s.tree, s.depth, g, s.depth, LBLK_LIMIT)
    ensures e.End() <= Hi(u.tree, u.depth, g, u.depth, LBLK_LIMIT)
    ensures after && ExtentsOf(s) != [] ==> Lo(u.tree, u.depth, g, u.depth, 0) <= e.lblk
  {
    SubOrdered(u.tree, u.depth, g, u.depth, 0, LBLK_LIMIT);
    if ExtentsOf(s) == [] {
      EmptyIsRoot(s, m, n, g);
    } else if after {
      ExtentsWellFormed(s.tree, s.depth, s.leaves, m, n);
      BehindFits(s.tree, s.depth, u.tree, u.depth, ExtentsOf(s), g, j, e);
    }
  }

  /** One extent has come into the leaf of g. */
  ghost predicate Grown(u: State, s': State, m: nat, n: nat, g: nat, e: Extent) {
    && Whole(u, m, n) && s'.tree == u.tree && s'.depth == u.depth && s'.free == u.free
    && (exists p: nat :: GrownAt(LeafAt(u.leaves, Route(u.tree, u.depth, g)), p, e, Cap(u.depth, m, n)) &&
          s'.leaves == u.leaves[Route(u.tree, u.depth, g) := InsertedAt(LeafAt(u.leaves, Route(u.tree, u.depth, g)), p, e)])
    && (Whole(s', m, n) <==>
          Lo(u.tree, u.depth, g, u.depth, 0) <= e.lblk && e.End() <= Hi(u.tree, u.depth, g, u.depth, LBLK_LIMIT))
  }

  ghost predicate GrownAt(s: seq<Extent>, p: nat, e: Extent, max: nat) {
    p <= |s| < max && Between(s, p, e)
  }

  lemma BoundedSame(t: Tree, d: nat, s: seq<Extent>, g: nat)
    requires Shape(t, d)
    ensures Bounded(t, d, t, d, s, g)
  {
  }

  lemma FullCount(s: State, m: nat, n: nat, g: nat)
    requires Whole(s, m, n)
    ensures Full(s.tree, s.depth, s.leaves, 0, g, m, n) ==> Count(s.tree, s.depth, s.leaves, 0, g) > 1 && ExtentsOf(s) != []
  {
    var f, f' := Changed(s.tree, s.depth, s.leaves, m, n, g, Route(s.tree, s.depth, g), []);
  }

  method InsertInLeaf(h: Handle, g: nat, after: bool, e: Extent, ghost j: nat, ghost k: nat)
    requires h.Valid() && !Full(h.tree, h.depth, h.leaves, 0, g, h.rootMax, h.nodeMax)
    requires StandsOn(ExtentsOf(h.Now()), g, after, j, k) && Between(ExtentsOf(h.Now()), k, e)
    modifies h`leaves
    ensures Grown(old(h.Now()), h.Now(), h.rootMax, h.nodeMax, g, e)
    ensures ExtentsOf(h.Now()) == InsertedAt(old(ExtentsOf(h.Now())), k, e)
  {
    ghost var u := h.Now();
    var b := Route(h.tree, h.depth, g);
    var leaf := LeafAt(h.leaves, b);
    var p := LeafPlace(leaf, g, after);
    h.leaves := h.leaves[b := InsertedAt(leaf, p, e)];
    LeafGrown(u, h.rootMax, h.nodeMax, g, after, j, k, e, b, p, h.Now());
  }

  // ----- Other bounds at one end -----

  function ButLast(s: seq<Span>): (r: seq<Span>)
    requires s != []
  {
    s[..|s| - 1]
  }

  function Last(s: seq<Span>): (x: Span)
    requires s != []
  {
    s[|s| - 1]
  }

  lemma {:induction false} SomeSpan(t: Tree, d: nat, lo: nat, hi: nat)
    requires Shape(t, d)
    ensures Spans(t, d, lo, hi) != []
    decreases d
  {
    if d > 0 {
      KidSpansAround(t, d, 0, lo, hi);
      SomeSpan(t.kids[0], d - 1, Bound(t.keys, 0, lo, hi), Bound(t.keys, 1, lo, hi));
    }
  }

  lemma LastOf(a: seq<Span>, b: seq<Span>)
    requires b != []
    ensures Last(a + b) == Last(b) && ButLast(a + b) == a + ButLast(b)
  {
  }

  /** Another upper bound of a tree is that of its last leaf. */
  lemma {:induction false} OtherHi(t: Tree, d: nat, lo: nat, hi: nat, hi': nat)
    requires Shape(t, d) && Ordered(t, lo, hi) && Spans(t, d, lo, hi) != [] && Last(Spans(t, d, lo, hi)).lo <= hi'
    ensures Ordered(t, lo, hi') && Last(Spans(t, d, lo, hi)).hi == hi
    ensures Spans(t, d, lo, hi') == ButLast(Spans(t, d, lo, hi)) + [Last(Spans(t, d, lo, hi)).(hi := hi')]
    decreases d
  {
    if d > 0 {
      var n := |t.kids|;
      var j := n - 1;
      var kid, mid := t.kids[j], Bound(t.keys, j, lo, hi);
      KidSpansLast(t, d, 0, n, lo, hi);
      KidSpansLast(t, d, 0, n, lo, hi');
      SomeSpan(kid, d - 1, mid, hi);
      LastOf(KidSpans(t, d, 0, j, lo, hi), Spans(kid, d - 1, mid, hi));
      SpansInOrder(kid, d - 1, mid, hi);
      OtherHi(kid, d - 1, mid, hi, hi');
      LastKidHi(t, d, lo, hi, hi');
      KidSpansSame(t, d, 0, j, lo, hi, t, 0, lo, hi');
      Associate(KidSpans(t, d, 0, j, lo, hi), ButLast(Spans(kid, d - 1, mid, hi)), [Last(Spans(kid, d - 1, mid, hi)).(hi := hi')]);
    }
  }

  lemma LastKidHi(t: Tree, d: nat, lo: nat, hi: nat, hi': nat)
    requires Shape(t, d) && 0 < d && Ordered(t, lo, hi) && Bound(t.keys, |t.kids| - 1, lo, hi) <= hi'
    requires Ordered(t.kids[|t.kids| - 1], Bound(t.keys, |t.kids| - 1, lo, hi), hi')
    ensures Ordered(t, lo, hi') && Bound(t.keys, |t.kids| - 1, lo, hi') == Bound(t.keys, |t.kids| - 1, lo, hi)
    ensures forall n :: 0 <= n < |t.kids| - 1 ==> SameKid(t, n, lo, hi, t, 0, lo, hi')
  {
    forall i | 0 <= i < |t.kids| ensures Ordered(t.kids[i], Bound(t.keys, i, lo, hi'), Bound(t.keys, i + 1, lo, hi')) {
      assert Ordered(t.kids[i], Bound(t.keys, i, lo, hi), Bound(t.keys, i + 1, lo, hi));
    }
  }

  /** And another lower bound that of its first leaf. */
  lemma {:induction false} OtherLo(t: Tree, d: nat, lo: nat, hi: nat, lo': nat)
    requires Shape(t, d) && Ordered(t, lo, hi) && Spans(t, d, lo, hi) != [] && lo' <= Spans(t, d, lo, hi)[0].hi
    ensures Ordered(t, lo', hi) && Spans(t, d, lo, hi)[0].lo == lo
    ensures Spans(t, d, lo', hi) == [Spans(t, d, lo, hi)[0].(lo := lo')] + Spans(t, d, lo, hi)[1..]
    decreases d
  {
    if d > 0 {
      var n := |t.kids|;
      var kid, mid := t.kids[0], Bound(t.keys, 1, lo, hi);
      FirstKid(t, d, lo, hi);
      FirstKid(t, d, lo', hi);
      SomeSpan(kid, d - 1, lo, mid);
      SpansInOrder(kid, d - 1, lo, mid);
      OtherLo(kid, d - 1, lo, mid, lo');
      FirstKidLo(t, d, lo, hi, lo');
      KidSpansSame(t, d, 1, n, lo, hi, t, 0, lo', hi);
      var s, rest := Spans(kid, d - 1, lo, mid), KidSpans(t, d, 1, n, lo, hi);
      assert (s + rest)[0] == s[0] && (s + rest)[1..] == s[1..] + rest;
      Associate([s[0].(lo := lo')], s[1..], rest);
    }
  }

  lemma FirstKid(t: Tree, d: nat, lo: nat, hi: nat)
    requires Shape(t, d) && 0 < d
    ensures Spans(t, d, lo, hi) == Spans(t.kids[0], d - 1, lo, Bound(t.keys, 1, lo, hi)) + KidSpans(t, d, 1, |t.kids|, lo, hi)
  {
    KidSpansAround(t, d, 0, lo, hi);
    var a := Spans(t.kids[0], d - 1, lo, Bound(t.keys, 1, lo, hi));
    assert [] + a == a;
  }

  lemma FirstKidLo(t: Tree, d: nat, lo: nat, hi: nat, lo': nat)
    requires Shape(t, d) && 0 < d && Ordered(t, lo, hi) && lo' <= Bound(t.keys, 1, lo, hi)
    requires Ordered(t.kids[0], lo', Bound(t.keys, 1, lo, hi))
    ensures Ordered(t, lo', hi) && Bound(t.keys, 1, lo', hi) == Bound(t.keys, 1, lo, hi)
    ensures forall n :: 1 <= n < |t.kids| ==> SameKid(t, n, lo, hi, t, 0, lo', hi)
  {
    forall i | 0 <= i < |t.kids| ensures Ordered(t.kids[i], Bound(t.keys, i, lo', hi), Bound(t.keys, i + 1, lo', hi)) {
      assert Ordered(t.kids[i], Bound(t.keys, i, lo, hi), Bound(t.keys, i + 1, lo, hi));
    }
  }

  // ----- Correcting a key -----

  /** The key that bounds the leaf of g from below becomes start: that of the lowest entry on the way that is not a first one. */
  function SetKey(t: Tree, d: nat, g: nat, start: nat): (r: Option<Tree>)
    requires Shape(t, d)
    ensures r.Some? ==> Shape(r.value, d)
    decreases d
  {
    if d == 0 then None
    else
      var i := At(t.keys, g);
      match SetKey(t.kids[i], d - 1, g, start)
      case Some(kid) => Some(Inner(t.block, t.keys, t.kids[i := kid]))
      case None => if i > 0 then Some(Inner(t.block, t.keys[i := start], t.kids)) else None
  }

  /** The leaf x of g and the one before it, and what a new key makes of them. */
  ghost predicate KeyIsSet(s: seq<Span>, s': seq<Span>, before: seq<Span>, p: Span, x: Span, behind: seq<Span>, start: nat) {
    && s == before + [p, x] + behind && p.hi == x.lo
    && (p.lo <= start <= x.hi ==> s' == before + [p.(hi := start), x.(lo := start)] + behind)
  }

  /** The first leaf of a tree is that of g, if no key is set. */
  lemma {:induction false} NoKeySet(t: Tree, d: nat, g: nat, start: nat, lo: nat, hi: nat)
    requires Shape(t, d) && Ordered(t, lo, hi) && SetKey(t, d, g, start) == None
    ensures Lo(t, d, g, d, lo) == lo && Spans(t, d, lo, hi) != []
    ensures Spans(t, d, lo, hi)[0] == Span(Route(t, d, g), Lo(t, d, g, d, lo), Hi(t, d, g, d, hi))
    decreases d
  {
    if d > 0 {
      NoKeySet(t.kids[0], d - 1, g, start, lo, Bound(t.keys, 1, lo, hi));
      FirstKid(t, d, lo, hi);
    }
  }

  lemma TwoOf(p: seq<Span>, a: seq<Span>, b: seq<Span>, q: seq<Span>, pa: seq<Span>, x: Span, y: Span, bq: seq<Span>)
    requires a == pa + [x] && b == [y] + bq
    ensures p + a + (b + q) == (p + pa) + [x, y] + (bq + q)
  {
  }

  /** The key of entry i of a node, behind a first leaf. */
  lemma KeySetHere(t: Tree, d: nat, i: nat, start: nat, lo: nat, hi: nat)
    returns (before: seq<Span>, p: Span, x: Span, behind: seq<Span>)
    requires Shape(t, d) && 0 < d && 0 < i < |t.kids| && Ordered(t, lo, hi)
    ensures var t' := Inner(t.block, t.keys[i := start], t.kids);
            Shape(t', d) && KeyIsSet(Spans(t, d, lo, hi), Spans(t', d, lo, hi), before, p, x, behind, start) &&
            (p.lo <= start <= x.hi ==> Ordered(t', lo, hi))
    ensures Spans(t.kids[i], d - 1, Bound(t.keys, i, lo, hi), Bound(t.keys, i + 1, lo, hi)) != []
    ensures x == Spans(t.kids[i], d - 1, Bound(t.keys, i, lo, hi), Bound(t.keys, i + 1, lo, hi))[0]
  {
    var h, n, t' := i - 1, |t.kids|, Inner(t.block, t.keys[i := start], t.kids);
    var l, m, r := Bound(t.keys, h, lo, hi), t.keys[i], Bound(t.keys, i + 1, lo, hi);
    var a, b := Spans(t.kids[h], d - 1, l, m), Spans(t.kids[i], d - 1, m, r);
    var front, rear := KidSpans(t, d, 0, h, lo, hi), KidSpans(t, d, i + 1, n, lo, hi);
    SomeSpan(t.kids[h], d - 1, l, m);
    SomeSpan(t.kids[i], d - 1, m, r);
    AroundTwo(t, d, h, i, lo, hi);
    before, p, x, behind := front + ButLast(a), Last(a), b[0], b[1..] + rear;
    TwoOf(front, a, b, rear, ButLast(a), p, x, b[1..]);
    SpansInOrder(t.kids[i], d - 1, m, r);
    SpansInOrder(t.kids[h], d - 1, l, m);
    OtherLo(t.kids[i], d - 1, m, r, m);
    OtherHi(t.kids[h], d - 1, l, m, m);
    if p.lo <= start <= x.hi {
      NewKey(t, d, h, i, start, lo, hi, a, b);
      TwoOf(front, ButLast(a) + [p.(hi := start)], [x.(lo := start)] + b[1..], rear, ButLast(a), p.(hi := start), x.(lo := start), b[1..]);
    }
  }

  lemma NewKey(t: Tree, d: nat, h: nat, i: nat, start: nat, lo: nat, hi: nat, a: seq<Span>, b: seq<Span>)
    requires Shape(t, d) && 0 < d && i == h + 1 < |t.kids| && Ordered(t, lo, hi)
    requires a == Spans(t.kids[h], d - 1, Bound(t.keys, h, lo, hi), t.keys[i])
    requires b == Spans(t.kids[i], d - 1, t.keys[i], Bound(t.keys, i + 1, lo, hi))
    requires a != [] && b != [] && Last(a).lo <= start <= b[0].hi
    ensures var t' := Inner(t.block, t.keys[i := start], t.kids);
            Shape(t', d) && Ordered(t', lo, hi) &&
            Spans(t', d, lo, hi) ==
            KidSpans(t, d, 0, h, lo, hi) + (ButLast(a) + [Last(a).(hi := start)]) +
            ([b[0].(lo := start)] + b[1..] + KidSpans(t, d, i + 1, |t.kids|, lo, hi))
  {
    var t' := Inner(t.block, t.keys[i := start], t.kids);
    OtherHi(t.kids[h], d - 1, Bound(t.keys, h, lo, hi), t.keys[i], start);
    OtherLo(t.kids[i], d - 1, t.keys[i], Bound(t.keys, i + 1, lo, hi), start);
    KeyOrdered(t, d, i, start, lo, hi);
    AroundTwo(t', d, h, i, lo, hi);
    KeyOthers(t, d, h, i, start, lo, hi, t');
  }

  lemma KeyOthers(t: Tree, d: nat, h: nat, i: nat, start: nat, lo: nat, hi: nat, t': Tree)
    requires Shape(t, d) && 0 < d && i == h + 1 < |t.kids| && Shape(t', d) && t' == Inner(t.block, t.keys[i := start], t.kids)
    ensures KidSpans(t', d, 0, h, lo, hi) == KidSpans(t, d, 0, h, lo, hi)
    ensures KidSpans(t', d, i + 1, |t.kids|, lo, hi) == KidSpans(t, d, i + 1, |t.kids|, lo, hi)
    ensures Bound(t'.keys, h, lo, hi) == Bound(t.keys, h, lo, hi) && Bound(t'.keys, i, lo, hi) == start
    ensures Bound(t'.keys, i + 1, lo, hi) == Bound(t.keys, i + 1, lo, hi)
  {
    KidSpansSame(t, d, 0, h, lo, hi, t', 0, lo, hi);
    KidSpansSame(t, d, i + 1, |t.kids|, lo, hi, t', 0, lo, hi);
  }

  lemma AroundTwo(t: Tree, d: nat, h: nat, i: nat, lo: nat, hi: nat)
    requires Shape(t, d) && 0 < d && i == h + 1 < |t.kids|
    ensures Spans(t, d, lo, hi) ==
            KidSpans(t, d, 0, h, lo, hi) + Spans(t.kids[h], d - 1, Bound(t.keys, h, lo, hi), Bound(t.keys, i, lo, hi)) +
            (Spans(t.kids[i], d - 1, Bound(t.keys, i, lo, hi), Bound(t.keys, i + 1, lo, hi)) + KidSpans(t, d, i + 1, |t.kids|, lo, hi))
  {
    KidSpansAround(t, d, i, lo, hi);
    KidSpansLast(t, d, 0, i, lo, hi);
    Associate(KidSpans(t, d, 0, i, lo, hi), Spans(t.kids[i], d - 1, Bound(t.keys, i, lo, hi), Bound(t.keys, i + 1, lo, hi)),
              KidSpans(t, d, i + 1, |t.kids|, lo, hi));
  }

  lemma KeyOrdered(t: Tree, d: nat, i: nat, start: nat, lo: nat, hi: nat)
    requires Shape(t, d) && 0 < d && 0 < i < |t.kids| && Ordered(t, lo, hi)
    requires Ordered(t.kids[i - 1], Bound(t.keys, i - 1, lo, hi), start) && Ordered(t.kids[i], start, Bound(t.keys, i + 1, lo, hi))
    ensures Ordered(Inner(t.block, t.keys[i := start], t.kids), lo, hi)
  {
    var keys := t.keys[i := start];
    BoundsApart(t.kids[i - 1], Bound(t.keys, i - 1, lo, hi), start);
    BoundsApart(t.kids[i], start, Bound(t.keys, i + 1, lo, hi));
    KeyInOrder(t.keys, i, start, lo, hi);
    forall j | 0 <= j < |t.kids| ensures Ordered(t.kids[j], Bound(keys, j, lo, hi), Bound(keys, j + 1, lo, hi)) {
      assert Ordered(t.kids[j], Bound(t.keys, j, lo, hi), Bound(t.keys, j + 1, lo, hi));
    }
  }

  lemma KeyInOrder(keys: seq<nat>, i: nat, start: nat, lo: nat, hi: nat)
    requires 0 < i < |keys| && KeysInOrder(keys, lo, hi) && Bound(keys, i - 1, lo, hi) <= start <= Bound(keys, i + 1, lo, hi)
    ensures KeysInOrder(keys[i := start], lo, hi)
  {
  }

  lemma {:induction false} SetKeySpans(t: Tree, d: nat, g: nat, start: nat, lo: nat, hi: nat)
    returns (before: seq<Span>, p: Span, x: Span, behind: seq<Span>)
    requires Shape(t, d) && Ordered(t, lo, hi) && SetKey(t, d, g, start).Some?
    ensures var t' := SetKey(t, d, g, start).value;
            KeyIsSet(Spans(t, d, lo, hi), Spans(t', d, lo, hi), before, p, x, behind, start) &&
            (p.lo <= start <= x.hi ==> Ordered(t', lo, hi))
    ensures x == Span(Route(t, d, g), Lo(t, d, g, d, lo), Hi(t, d, g, d, hi))
    decreases d
  {
    var i := At(t.keys, g);
    var lo', hi' := Bound(t.keys, i, lo, hi), Bound(t.keys, i + 1, lo, hi);
    match SetKey(t.kids[i], d - 1, g, start)
    case None =>
      NoKeySet(t.kids[i], d - 1, g, start, lo', hi');
      before, p, x, behind := KeySetHere(t, d, i, start, lo, hi);
    case Some(kid) =>
      var a, b;
      a, p, x, b := SetKeySpans(t.kids[i], d - 1, g, start, lo', hi');
      var front, rear := KidSpans(t, d, 0, i, lo, hi), KidSpans(t, d, i + 1, |t.kids|, lo, hi);
      KidSpansAround(t, d, i, lo, hi);
      before, behind := front + a, b + rear;
      Wrap(front, a, [p, x], b, rear);
      if p.lo <= start <= x.hi {
        KidPruned(t, d, i, kid, lo, hi);
        Wrap(front, a, [p.(hi := start), x.(lo := start)], b, rear);
      }
  }

  lemma {:induction false} SetKeyCaps(t: Tree, d: nat, g: nat, start: nat, m: nat, n: nat)
    requires Shape(t, d) && Caps(t, m, n) && SetKey(t, d, g, start).Some?
    ensures Caps(SetKey(t, d, g, start).value, m, n)
    decreases d
  {
    if SetKey(t.kids[At(t.keys, g)], d - 1, g, start).Some? {
      SetKeyCaps(t.kids[At(t.keys, g)], d - 1, g, start, n, n);
    }
  }

  /** The blocks are the same. */
  lemma {:induction false} SetKeyOn(t: Tree, d: nat, g: nat, start: nat, b: nat)
    requires Shape(t, d) && SetKey(t, d, g, start).Some?
    ensures On(SetKey(t, d, g, start).value, b) ==> On(t, b)
    ensures SetKey(t, d, g, start).value.block == t.block
    decreases d
  {
    var i, t' := At(t.keys, g), SetKey(t, d, g, start).value;
    if SetKey(t.kids[i], d - 1, g, start).Some? {
      SetKeyOn(t.kids[i], d - 1, g, start, b);
      if On(t', b) && b != t.block {
        var k :| 0 <= k < |t'.kids| && On(t'.kids[k], b);
        assert k == i || t'.kids[k] == t.kids[k];
      }
    }
  }

  lemma {:induction false} SetKeySeparate(t: Tree, d: nat, g: nat, start: nat)
    requires Shape(t, d) && Separate(t) && SetKey(t, d, g, start).Some?
    ensures Separate(SetKey(t, d, g, start).value)
    decreases d
  {
    var i := At(t.keys, g);
    match SetKey(t.kids[i], d - 1, g, start)
    case None =>
    case Some(kid) =>
      SetKeySeparate(t.kids[i], d - 1, g, start);
      forall b | On(kid, b) ensures On(t.kids[i], b) {
        SetKeyOn(t.kids[i], d - 1, g, start, b);
      }
      PrunedKidSeparate(t, i, kid);
  }

  // ----- The tree after its keys have been corrected -----

  /** A tree in order but for the lower bound of the leaf of g, whose first extent begins at start. */
  ghost predicate Nearly(t: Tree, d: nat, leaves: map<int, seq<Extent>>, m: nat, n: nat, g: nat, start: nat) {
    && 2 <= m < n && Shape(t, d) && Ordered(t, 0, LBLK_LIMIT) && Separate(t) && Caps(t, m, n) && WellFormed(Extents(t, d, leaves))
    && var b, s := Route(t, d, g), LeafAt(leaves, Route(t, d, g));
       && b in leaves && s != [] && s[0].lblk == start && LeafFits(s, 0, Hi(t, d, g, d, LBLK_LIMIT), Cap(d, m, n))
       && (0 < d ==> ButFor(Spans(t, d, 0, LBLK_LIMIT), b, leaves, n))
  }

  ghost predicate ButFor(s: seq<Span>, b: nat, leaves: map<int, seq<Extent>>, max: nat) {
    forall i :: 0 <= i < |s| && s[i].block != b ==> FitsAt(s[i], leaves, max)
  }

  lemma ButForParts(before: seq<Span>, p: Span, x: Span, behind: seq<Span>, leaves: map<int, seq<Extent>>, max: nat)
    requires Distinct(before + [p, x] + behind) && ButFor(before + [p, x] + behind, x.block, leaves, max)
    ensures AllFit(before, leaves, max) && FitsAt(p, leaves, max) && AllFit(behind, leaves, max)
  {
    var s, n := before + [p, x] + behind, |before|;
    assert s[n] == p && s[n + 1] == x;
    forall i | 0 <= i < n ensures FitsAt(before[i], leaves, max) {
      assert s[i] == before[i];
    }
    forall i | 0 <= i < |behind| ensures FitsAt(behind[i], leaves, max) {
      assert s[n + 2 + i] == behind[i];
    }
  }

  /** The extents of the leaf before end where those of the next begin. */
  lemma EndsBefore(f: seq<Extent>, a: seq<Extent>, b: seq<Extent>, f': seq<Extent>, lo: nat, hi: nat, max: nat)
    requires WellFormed(f + (a + b) + f') && a != [] && b != [] && LeafFits(a, lo, hi, max)
    ensures lo <= b[0].lblk && LeafFits(a, lo, b[0].lblk, max)
  {
    var s := f + (a + b) + f';
    forall i | 0 <= i < |a| ensures a[i].End() <= b[0].lblk {
      assert s[|f| + i] == a[i] && s[|f| + |a|] == b[0];
    }
    assert a[0].lblk < a[0].End();
  }

  lemma BeginsAt(s: seq<Extent>, hi: nat, max: nat)
    requires LeafFits(s, 0, hi, max) && s != []
    ensures LeafFits(s, s[0].lblk, hi, max) && s[0].lblk <= hi
  {
    assert s[0].lblk < s[0].End();
    forall i | 0 <= i < |s| ensures s[0].lblk <= s[i].lblk {
      assert i > 0 ==> s[0].End() <= s[i].lblk;
    }
  }

  /** Nothing was wrong, or the leaf of g is the first one. */
  lemma AlreadyRight(t: Tree, d: nat, leaves: map<int, seq<Extent>>, m: nat, n: nat, g: nat, start: nat)
    requires Nearly(t, d, leaves, m, n, g, start) && SetKey(t, d, g, start) == None
    ensures IsTree(t, d, leaves, m, n)
  {
    if d > 0 {
      NoKeySet(t, d, g, start, 0, LBLK_LIMIT);
      SpansDistinct(t, d, 0, LBLK_LIMIT);
      var s := Spans(t, d, 0, LBLK_LIMIT);
      forall i | 0 <= i < |s| ensures FitsAt(s[i], leaves, n) {
        assert i > 0 ==> s[0].block != s[i].block;
      }
    }
  }

  /** With the right key the tree is in order again. */
  lemma KeyCorrected(t: Tree, d: nat, leaves: map<int, seq<Extent>>, m: nat, n: nat, g: nat, start: nat, t': Tree)
    requires Nearly(t, d, leaves, m, n, g, start) && SetKey(t, d, g, start) == Some(t')
    ensures IsTree(t', d, leaves, m, n) && Extents(t', d, leaves) == Extents(t, d, leaves)
  {
    var before, p, x, behind := SetKeySpans(t, d, g, start, 0, LBLK_LIMIT);
    SpansDistinct(t, d, 0, LBLK_LIMIT);
    ButForParts(before, p, x, behind, leaves, n);
    FlatAround(before, [p, x], behind, leaves);
    TwoFlat(p, x, leaves);
    EndsBefore(Flat(before, leaves), LeafAt(leaves, p.block), LeafAt(leaves, x.block), Flat(behind, leaves), p.lo, p.hi, n);
    BeginsAt(LeafAt(leaves, x.block), x.hi, n);
    var p', x' := p.(hi := start), x.(lo := start);
    FlatAround(before, [p', x'], behind, leaves);
    TwoFlat(p', x', leaves);
    TwoFit(p', x', leaves, n);
    FitAround(before, [p', x'], behind, leaves, n);
    SetKeyCaps(t, d, g, start, m, n);
    SetKeySeparate(t, d, g, start);
  }

  /**
   `ext2fs_extent_fix_parents` at the extent of the leaf of g that begins at start: if it is the first of the leaf, the key
   that bounds the leaf becomes its beginning.
   */
  method FixParents(h: Handle, g: nat, start: nat)
    requires Shape(h.tree, h.depth) && FreeOf(h.free, h.tree) && LeafAt(h.leaves, Route(h.tree, h.depth, g)) != []
    requires if LeafAt(h.leaves, Route(h.tree, h.depth, g))[0].lblk == start
             then Nearly(h.tree, h.depth, h.leaves, h.rootMax, h.nodeMax, g, start) else h.Valid()
    modifies h`tree
    ensures h.Valid() && ExtentsOf(h.Now()) == old(ExtentsOf(h.Now()))
  {
    ghost var t := h.tree;
    if LeafAt(h.leaves, Route(h.tree, h.depth, g))[0].lblk == start {
      match SetKey(h.tree, h.depth, g, start)
      case None =>
        AlreadyRight(h.tree, h.depth, h.leaves, h.rootMax, h.nodeMax, g, start);
      case Some(t') =>
        KeyCorrected(h.tree, h.depth, h.leaves, h.rootMax, h.nodeMax, g, start, t');
        forall b <- h.free ensures !On(t', b) {
          SetKeyOn(h.tree, h.depth, g, start, b);
        }
        h.tree := t';
    }
  }

  lemma WithinWider(s: seq<Extent>, lo: nat, hi: nat, max: nat, hi': nat, max': nat)
    requires LeafFits(s, lo, hi, max) && hi <= hi' && |s| <= max'
    ensures LeafFits(s, 0, hi', max')
  {
  }

  lemma InsertedWellFormed(s: seq<Extent>, k: nat, e: Extent)
    requires WellFormed(s) && Between(s, k, e)
    ensures WellFormed(InsertedAt(s, k, e))
  {
    InsertedFits(s, k, e, 0, LBLK_LIMIT, |s| + 1);
  }

  /** The other leaves are as they were. */
  lemma OthersAsBefore(s: seq<Span>, b: nat, leaves: map<int, seq<Extent>>, x: seq<Extent>, max: nat)
    requires AllFit(s, leaves, max)
    ensures ButFor(s, b, leaves[b := x], max)
  {
    forall i | 0 <= i < |s| && s[i].block != b ensures FitsAt(s[i], leaves[b := x], max) {
      assert FitsAt(s[i], leaves, max);
    }
  }

  /** After an insertion in front of the first extent of a leaf only its lower bound may be wrong. */
  lemma GrownNearly(u: State, s': State, m: nat, n: nat, g: nat, e: Extent, k: nat)
    requires Grown(u, s', m, n, g, e) && e.End() <= Hi(u.tree, u.depth, g, u.depth, LBLK_LIMIT)
    requires Between(ExtentsOf(u), k, e) && ExtentsOf(s') == InsertedAt(ExtentsOf(u), k, e)
    ensures LeafAt(s'.leaves, Route(s'.tree, s'.depth, g)) != []
    ensures if LeafAt(s'.leaves, Route(s'.tree, s'.depth, g))[0].lblk == e.lblk
            then Nearly(s'.tree, s'.depth, s'.leaves, m, n, g, e.lblk) else Whole(s', m, n)
  {
    var t, d, b := u.tree, u.depth, Route(u.tree, u.depth, g);
    var leaf, lo, hi := LeafAt(u.leaves, b), Lo(t, d, g, d, 0), Hi(t, d, g, d, LBLK_LIMIT);
    var p: nat :| GrownAt(leaf, p, e, Cap(d, m, n)) && s'.leaves == u.leaves[b := InsertedAt(leaf, p, e)];
    BoundsOfLeaf(t, d, u.leaves, m, n, g);
    if p == 0 {
      ExtentsWellFormed(t, d, u.leaves, m, n);
      InsertedWellFormed(ExtentsOf(u), k, e);
      WithinWider(leaf, lo, hi, Cap(d, m, n), hi, Cap(d, m, n));
      InsertedFits(leaf, p, e, 0, hi, Cap(d, m, n));
      if d > 0 {
        OthersAsBefore(Spans(t, d, 0, LBLK_LIMIT), b, u.leaves, InsertedAt(leaf, p, e), n);
      }
    } else {
      assert leaf[0].lblk < leaf[0].End() && (p > 1 ==> leaf[0].End() <= leaf[p - 1].lblk) && leaf[p - 1].lblk < leaf[p - 1].End();
      assert InsertedAt(leaf, p, e)[0] == leaf[0];
    }
  }

  /**
   An extent is inserted, and the keys above it corrected. In front of the current extent that is always enough for the tree
   to be in order; behind it, if the extent ends before the next leaf begins.
   */
  method InsertAndFix(h: Handle, g: nat, after: bool, noSplit: bool, e: Extent, ghost j: nat, ghost k: nat) returns (err: Error)
    requires h.Valid() && g < LBLK_LIMIT && StandsOn(ExtentsOf(h.Now()), g, after, j, k) && Between(ExtentsOf(h.Now()), k, e)
    requires after ==> e.End() <= Hi(h.tree, h.depth, g, h.depth, LBLK_LIMIT)
    modifies h`depth, h`tree, h`leaves, h`free, h`blocks
    ensures h.Valid() && ExtentsOf(h.Now()) == if err == Ok then InsertedAt(old(ExtentsOf(h.Now())), k, e) else old(ExtentsOf(h.Now()))
    ensures err == if !old(Full(h.tree, h.depth, h.leaves, 0, g, h.rootMax, h.nodeMax)) then Ok
                   else if noSplit then CantInsert
                   else if old(Need(h.tree, h.depth, h.leaves, 0, g, h.rootMax, h.nodeMax) > |h.free|) then NoSpace else Ok
  {
    ghost var s, u := h.Now(), h.Now();
    err, u := Insert(h, g, after, noSplit, e, j, k);
    if err == Ok {
      UpperFits(s, u, h.rootMax, h.nodeMax, g, after, e, j, k);
      GrownNearly(u, h.Now(), h.rootMax, h.nodeMax, g, e, k);
      FixParents(h, g, e.lblk);
    }
  }
}
