/**
 Model of the extent tree over several levels in libext2fs/extent.c: going down to a logical block, and splitting a
 node, which may split its parents and the root first. The index is held as a value, the leaves as a map from blocks
 to lists of extents.
 */
module ExtentTree {
  import opened ExtentList
  import opened HashSpans
  import opened HashTree

  // ----- Capacities -----

  /** An index node has m entries at most, the nodes below it n. */
  ghost predicate Caps(t: Tree, m: nat, n: nat)
    decreases t
  {
    t.Inner? ==> |t.keys| <= m && forall i :: 0 <= i < |t.kids| ==> Caps(t.kids[i], n, n)
  }

  function Cap(k: nat, m: nat, n: nat): (c: nat) {
    if k == 0 then m else n
  }

  lemma {:induction false} SubCaps(t: Tree, d: nat, h: nat, k: nat, m: nat, n: nat)
    requires Shape(t, d) && k <= d && Caps(t, m, n)
    ensures Caps(Sub(t, d, h, k), Cap(k, m, n), n)
    decreases k
  {
    if k > 0 {
      SubCaps(t.kids[At(t.keys, h)], d - 1, h, k - 1, n, n);
    }
  }

  lemma {:induction false} PutCaps(t: Tree, d: nat, h: nat, k: nat, x: Tree, m: nat, n: nat)
    requires Shape(t, d) && k <= d && Shape(x, d - k) && Caps(t, m, n) && Caps(x, Cap(k, m, n), n)
    ensures Caps(Put(t, d, h, k, x), m, n)
    decreases k
  {
    if k > 0 {
      PutCaps(t.kids[At(t.keys, h)], d - 1, h, k - 1, x, n, n);
    }
  }

  lemma InsertCaps(t: Tree, a: nat, x: Tree, key: nat, y: Tree, m: nat, n: nat)
    requires t.Inner? && a < |t.keys| == |t.kids| && Caps(t, m, n) && |t.keys| < m && Caps(x, n, n) && Caps(y, n, n)
    ensures Caps(Insert(t, a, x, key, y), m, n)
  {
    var t' := Insert(t, a, x, key, y);
    forall j | 0 <= j < |t'.kids| ensures Caps(t'.kids[j], n, n) {
      var i := if j > a then j - 1 else j;
      assert Caps(t.kids[i], n, n);
    }
  }

  lemma HalvesCaps(t: Tree, c: nat, block: nat, n: nat)
    requires t.Inner? && c <= |t.keys| == |t.kids| && Caps(t, n, n)
    ensures Caps(Lower(t, c), n, n) && Caps(Upper(t, c, block), n, n)
  {
    var y := Upper(t, c, block);
    forall i | 0 <= i < |y.kids| ensures Caps(y.kids[i], n, n) {
      var j := c + i;
      assert Caps(t.kids[j], n, n);
    }
  }

  lemma SplitAtCaps(t: Tree, d: nat, h: nat, k: nat, c: nat, extra: nat, m: nat, n: nat)
    requires Shape(t, d) && k + 1 < d && 0 < c < |Sub(t, d, h, k + 1).keys| && Caps(t, m, n)
    requires |Sub(t, d, h, k).keys| < Cap(k, m, n)
    ensures Caps(SplitAt(t, d, h, k, c, extra), m, n)
  {
    SubStep(t, d, h, k);
    var s := Sub(t, d, h, k);
    var a := At(s.keys, h);
    var x := s.kids[a];
    SubCaps(t, d, h, k, m, n);
    SplitShape(x, d - k - 1, c, extra);
    InsertShape(s, d - k, a, Lower(x, c), x.keys[c], Upper(x, c, extra));
    HalvesCaps(x, c, extra, n);
    InsertCaps(s, a, Lower(x, c), x.keys[c], Upper(x, c, extra), Cap(k, m, n), n);
    PutCaps(t, d, h, k, SplitKid(s, a, c, extra), m, n);
  }

  lemma InsertAtCaps(t: Tree, d: nat, h: nat, key: nat, extra: nat, m: nat, n: nat)
    requires Shape(t, d) && 0 < d && Caps(t, m, n) && Shape(Sub(t, d, h, d - 1), 1)
    requires |Sub(t, d, h, d - 1).keys| < Cap(d - 1, m, n)
    ensures Caps(InsertAt(t, d, h, key, extra), m, n)
  {
    var s := Sub(t, d, h, d - 1);
    var a := At(s.keys, h);
    SubCaps(t, d, h, d - 1, m, n);
    InsertShape(s, 1, a, s.kids[a], key, Leaf(extra));
    InsertCaps(s, a, s.kids[a], key, Leaf(extra), Cap(d - 1, m, n), n);
    PutCaps(t, d, h, d - 1, InsertLeaf(s, a, key, extra), m, n);
  }

  lemma DeeperCaps(t: Tree, block: nat, m: nat, n: nat)
    requires t.Inner? && Caps(t, m, n) && 1 <= m <= n
    ensures Caps(Deeper(t, block), m, n)
  {
    assert Caps(Inner(block, t.keys, t.kids), n, n);
  }

  // ----- The extents of the leaves -----

  function LeafAt(leaves: map<int, seq<Extent>>, b: nat): (s: seq<Extent>) {
    if b in leaves then leaves[b] else []
  }

  /** All extents, leaf by leaf. */
  ghost function Flat(spans: seq<Span>, leaves: map<int, seq<Extent>>): (s: seq<Extent>) {
    if spans == [] then [] else LeafAt(leaves, spans[0].block) + Flat(spans[1..], leaves)
  }

  lemma {:induction false} FlatConcat(a: seq<Span>, b: seq<Span>, leaves: map<int, seq<Extent>>)
    ensures Flat(a + b, leaves) == Flat(a, leaves) + Flat(b, leaves)
  {
    if a == [] {
      assert a + b == b;
    } else {
      assert (a + b)[1..] == a[1..] + b;
      FlatConcat(a[1..], b, leaves);
    }
  }

  lemma {:induction false} FlatKept(s: seq<Span>, leaves: map<int, seq<Extent>>, leaves': map<int, seq<Extent>>)
    requires forall i :: 0 <= i < |s| ==> LeafAt(leaves', s[i].block) == LeafAt(leaves, s[i].block)
    ensures Flat(s, leaves') == Flat(s, leaves)
  {
    if s != [] {
      FlatKept(s[1..], leaves, leaves');
    }
  }

  lemma FlatAround(before: seq<Span>, m: seq<Span>, behind: seq<Span>, leaves: map<int, seq<Extent>>)
    ensures Flat(before + m + behind, leaves) == Flat(before, leaves) + Flat(m, leaves) + Flat(behind, leaves)
  {
    FlatConcat(before + m, behind, leaves);
    FlatConcat(before, m, leaves);
  }

  /** A list of extents that lie between the bounds of a leaf. */
  ghost predicate LeafFits(s: seq<Extent>, lo: nat, hi: nat, max: nat) {
    |s| <= max && WellFormed(s) && forall i :: 0 <= i < |s| ==> lo <= s[i].lblk && s[i].End() <= hi
  }

  /** Below the root no leaf is empty. */
  ghost predicate FitsAt(s: Span, leaves: map<int, seq<Extent>>, max: nat) {
    s.block in leaves && leaves[s.block] != [] && LeafFits(leaves[s.block], s.lo, s.hi, max)
  }

  ghost predicate AllFit(spans: seq<Span>, leaves: map<int, seq<Extent>>, max: nat) {
    forall i :: 0 <= i < |spans| ==> FitsAt(spans[i], leaves, max)
  }

  lemma FitAround(before: seq<Span>, m: seq<Span>, behind: seq<Span>, leaves: map<int, seq<Extent>>, max: nat)
    ensures AllFit(before + m + behind, leaves, max) <==>
            AllFit(before, leaves, max) && AllFit(m, leaves, max) && AllFit(behind, leaves, max)
  {
    var s := before + m + behind;
    if AllFit(s, leaves, max) {
      forall i | 0 <= i < |before| ensures FitsAt(before[i], leaves, max) {
        assert s[i] == before[i];
      }
      forall i | 0 <= i < |m| ensures FitsAt(m[i], leaves, max) {
        assert s[|before| + i] == m[i];
      }
      forall i | 0 <= i < |behind| ensures FitsAt(behind[i], leaves, max) {
        assert s[|before| + |m| + i] == behind[i];
      }
    }
  }

  /** A block that is in none of the spans holds nothing. */
  lemma {:induction false} NoneFound(s: seq<Span>, leaves: map<int, seq<Extent>>, max: nat, g: nat)
    requires AllFit(s, leaves, max) && forall i :: 0 <= i < |s| ==> !(s[i].lo <= g < s[i].hi)
    ensures Lookup(Flat(s, leaves), g) == None
  {
    if s != [] {
      NoneFound(s[1..], leaves, max, g);
      assert FitsAt(s[0], leaves, max);
      LookupNone(LeafAt(leaves, s[0].block), g);
      LookupConcat(LeafAt(leaves, s[0].block), Flat(s[1..], leaves), g);
    }
  }

  /** The leaf that a logical block leads to has its extent if any leaf has. */
  lemma LeafDecides(t: Tree, d: nat, leaves: map<int, seq<Extent>>, max: nat, g: nat)
    requires Shape(t, d) && Ordered(t, 0, LBLK_LIMIT) && g < LBLK_LIMIT && AllFit(Spans(t, d, 0, LBLK_LIMIT), leaves, max)
    ensures Lookup(LeafAt(leaves, Route(t, d, g)), g) == Lookup(Flat(Spans(t, d, 0, LBLK_LIMIT), leaves), g)
  {
    var before, behind := SpanOfHash(t, d, g, 0, LBLK_LIMIT);
    var m := Span(Route(t, d, g), Lo(t, d, g, d, 0), Hi(t, d, g, d, LBLK_LIMIT));
    SubOrdered(t, d, g, d, 0, LBLK_LIMIT);
    SpansInOrder(t, d, 0, LBLK_LIMIT);
    FitAround(before, [m], behind, leaves, max);
    FlatAround(before, [m], behind, leaves);
    OthersMiss(before, m, behind, leaves, max, g);
    OneFlat(m, leaves);
    LookupConcat(Flat(before, leaves) + Flat([m], leaves), Flat(behind, leaves), g);
    LookupConcat(Flat(before, leaves), Flat([m], leaves), g);
  }

  lemma OneFlat(m: Span, leaves: map<int, seq<Extent>>)
    ensures Flat([m], leaves) == LeafAt(leaves, m.block)
  {
    assert Flat([m][1..], leaves) == [];
  }

  lemma OthersMiss(before: seq<Span>, m: Span, behind: seq<Span>, leaves: map<int, seq<Extent>>, max: nat, g: nat)
    requires InOrder(before + [m] + behind, 0, LBLK_LIMIT) && m.lo <= g < m.hi
    requires AllFit(before, leaves, max) && AllFit(behind, leaves, max)
    ensures Lookup(Flat(before, leaves), g) == None && Lookup(Flat(behind, leaves), g) == None
  {
    var s := before + [m] + behind;
    forall i | 0 <= i < |before| ensures !(before[i].lo <= g < before[i].hi) {
      assert s[i] == before[i] && s[|before|] == m;
    }
    forall i | 0 <= i < |behind| ensures !(behind[i].lo <= g < behind[i].hi) {
      assert s[|before| + 1 + i] == behind[i] && s[|before|] == m;
    }
    NoneFound(before, leaves, max, g);
    NoneFound(behind, leaves, max, g);
  }

  // ----- Splitting a leaf -----

  lemma PartsFit(s: seq<Extent>, c: nat, lo: nat, hi: nat, max: nat)
    requires LeafFits(s, lo, hi, max) && 0 < c < |s|
    ensures lo <= s[c].lblk <= hi && LeafFits(s[..c], lo, s[c].lblk, max) && LeafFits(s[c..], s[c].lblk, hi, max)
  {
    forall i | 0 <= i < |s[c..]| ensures s[c..][i] == s[c + i] {
    }
  }

  ghost predicate Elsewhere(s: seq<Span>, b: nat, extra: nat) {
    forall i :: 0 <= i < |s| ==> s[i].block != b && s[i].block != extra
  }

  lemma OthersFit(s: seq<Span>, leaves: map<int, seq<Extent>>, leaves': map<int, seq<Extent>>, b: nat, extra: nat, max: nat)
    requires Elsewhere(s, b, extra) && AllFit(s, leaves, max)
    requires forall c: int :: c != b && c != extra ==> (c in leaves <==> c in leaves') && (c in leaves ==> leaves'[c] == leaves[c])
    ensures AllFit(s, leaves', max) && Flat(s, leaves') == Flat(s, leaves)
  {
    forall i | 0 <= i < |s| ensures FitsAt(s[i], leaves', max) {
      assert FitsAt(s[i], leaves, max);
    }
    FlatKept(s, leaves, leaves');
  }

  /** Around a leaf there is neither that leaf again nor a new one. */
  lemma AroundElsewhere(t: Tree, d: nat, before: seq<Span>, m: Span, behind: seq<Span>, extra: nat)
    requires Shape(t, d) && Separate(t) && !On(t, extra) && Spans(t, d, 0, LBLK_LIMIT) == before + [m] + behind
    ensures Elsewhere(before, m.block, extra) && Elsewhere(behind, m.block, extra) && m.block != extra
  {
    SpansOn(t, d, 0, LBLK_LIMIT);
    SpansDistinct(t, d, 0, LBLK_LIMIT);
    var s := before + [m] + behind;
    assert s[|before|] == m;
    forall i | 0 <= i < |before| ensures before[i].block != m.block && before[i].block != extra {
      assert s[i] == before[i];
    }
    forall i | 0 <= i < |behind| ensures behind[i].block != m.block && behind[i].block != extra {
      assert s[|before| + 1 + i] == behind[i];
    }
  }

  /** A leaf that is split at c: the flattened list of extents stays the same, and all leaves still fit. */
  lemma LeafSplit(t: Tree, t': Tree, d: nat, g: nat, b: nat, c: nat, key: nat, extra: nat, s: seq<Extent>,
                  leaves: map<int, seq<Extent>>, leaves': map<int, seq<Extent>>, max: nat)
    requires Shape(t, d) && 0 < d && Shape(t', d) && t' == InsertAt(t, d, g, key, extra) && b == Route(t, d, g) && b in leaves
    requires Separate(t) && !On(t, extra) && AllFit(Spans(t, d, 0, LBLK_LIMIT), leaves, max)
    requires s == leaves[b] && 0 < c < |s| && key == s[c].lblk
    requires b in leaves' && leaves'[b] == s[..c] && extra in leaves' && leaves'[extra] == s[c..]
    requires forall x: int :: x != b && x != extra ==> (x in leaves <==> x in leaves') && (x in leaves ==> leaves'[x] == leaves[x])
    ensures Lo(t, d, g, d, 0) <= key <= Hi(t, d, g, d, LBLK_LIMIT)
    ensures AllFit(Spans(t', d, 0, LBLK_LIMIT), leaves', max)
    ensures Flat(Spans(t', d, 0, LBLK_LIMIT), leaves') == Flat(Spans(t, d, 0, LBLK_LIMIT), leaves)
  {
    var before, behind := InsertAtSpans(t, d, g, key, extra, 0, LBLK_LIMIT);
    var m := Span(b, Lo(t, d, g, d, 0), Hi(t, d, g, d, LBLK_LIMIT));
    AroundElsewhere(t, d, before, m, behind, extra);
    FitAround(before, [m], behind, leaves, max);
    assert FitsAt([m][0], leaves, max);
    PartsFit(s, c, m.lo, m.hi, max);
    assert s[..c] + s[c..] == s;
    OthersFit(before, leaves, leaves', b, extra, max);
    OthersFit(behind, leaves, leaves', b, extra, max);
    PartsPlaced(before, m, behind, Span(b, m.lo, key), Span(extra, key, m.hi), leaves, leaves', max);
  }

  lemma PartsPlaced(before: seq<Span>, m: Span, behind: seq<Span>, x: Span, y: Span, leaves: map<int, seq<Extent>>,
                    leaves': map<int, seq<Extent>>, max: nat)
    requires AllFit(before, leaves', max) && Flat(before, leaves') == Flat(before, leaves)
    requires AllFit(behind, leaves', max) && Flat(behind, leaves') == Flat(behind, leaves)
    requires FitsAt(x, leaves', max) && FitsAt(y, leaves', max)
    requires LeafAt(leaves', x.block) + LeafAt(leaves', y.block) == LeafAt(leaves, m.block)
    ensures AllFit(before + [x, y] + behind, leaves', max)
    ensures Flat(before + [x, y] + behind, leaves') == Flat(before + [m] + behind, leaves)
  {
    FitAround(before, [x, y], behind, leaves', max);
    FlatAround(before, [x, y], behind, leaves');
    FlatAround(before, [m], behind, leaves);
    OneFlat(m, leaves);
    TwoFlat(x, y, leaves');
    TwoFit(x, y, leaves', max);
  }

  lemma TwoFit(x: Span, y: Span, leaves: map<int, seq<Extent>>, max: nat)
    requires FitsAt(x, leaves, max) && FitsAt(y, leaves, max)
    ensures AllFit([x, y], leaves, max)
  {
  }

  lemma TwoFlat(x: Span, y: Span, leaves: map<int, seq<Extent>>)
    ensures Flat([x, y], leaves) == LeafAt(leaves, x.block) + LeafAt(leaves, y.block)
  {
    OneFlat(x, leaves);
    OneFlat(y, leaves);
    FlatConcat([x], [y], leaves);
    assert [x] + [y] == [x, y];
  }

  // ----- The tree of a file -----

  /** How many entries the node h levels above the leaves has that a logical block leads to. */
  function Count(t: Tree, d: nat, leaves: map<int, seq<Extent>>, h: nat, g: nat): (n: nat)
    requires Shape(t, d) && h <= d
  {
    if h == 0 then |LeafAt(leaves, Route(t, d, g))|
    else assert Shape(Sub(t, d, g, d - h), h); |Sub(t, d, g, d - h).keys|
  }

  /** On k levels from the root on, the last entry is followed. */
  predicate AtEnd(t: Tree, d: nat, g: nat, k: nat)
    requires Shape(t, d) && k <= d
    decreases k
  {
    k == 0 || (At(t.keys, g) == |t.keys| - 1 && AtEnd(t.kids[At(t.keys, g)], d - 1, g, k - 1))
  }

  ghost predicate LeavesFit(t: Tree, d: nat, leaves: map<int, seq<Extent>>, m: nat, n: nat)
    requires Shape(t, d)
  {
    if d == 0 then LeafFits(LeafAt(leaves, t.block), 0, LBLK_LIMIT, m) else AllFit(Spans(t, d, 0, LBLK_LIMIT), leaves, n)
  }

  /** A tree with its leaves, in which every logical block leads to the extents it may be in. */
  ghost predicate IsTree(t: Tree, d: nat, leaves: map<int, seq<Extent>>, m: nat, n: nat) {
    && 2 <= m < n && Shape(t, d) && Ordered(t, 0, LBLK_LIMIT) && Separate(t) && Caps(t, m, n) && LeavesFit(t, d, leaves, m, n)
  }

  /** All extents of a tree in order. */
  ghost function Extents(t: Tree, d: nat, leaves: map<int, seq<Extent>>): (s: seq<Extent>)
    requires Shape(t, d)
  {
    Flat(Spans(t, d, 0, LBLK_LIMIT), leaves)
  }

  ghost predicate Differ(free: seq<nat>, i: nat, j: nat)
    requires i < |free| && j < |free|
  {
    free[i] != free[j]
  }

  /** The blocks that may still be had: none is in the tree, none is there twice. */
  ghost predicate FreeOf(free: seq<nat>, t: Tree) {
    (forall b <- free :: !On(t, b)) && forall i, j :: 0 <= i < j < |free| ==> Differ(free, i, j)
  }

  lemma FirstFree(free: seq<nat>, t: Tree)
    requires free != [] && FreeOf(free, t)
    ensures !On(t, free[0])
  {
  }

  lemma FreeRest(free: seq<nat>, t: Tree, t': Tree)
    requires free != [] && FreeOf(free, t) && Grown(t, t', free[0])
    ensures FreeOf(free[1..], t')
  {
    forall b <- free[1..] ensures !On(t', b) {
      var i :| 1 <= i < |free| && free[i] == b;
      assert Differ(free, 0, i) && b in free;
    }
    forall i, j | 0 <= i < j < |free[1..]| ensures Differ(free[1..], i, j) {
      assert Differ(free, i + 1, j + 1);
    }
  }

  // ----- The three ways to split -----

  /** A root that is a leaf moves to a new leaf. */
  function Raised(t: Tree, extra: nat): (t': Tree) {
    Inner(t.block, [0], [Leaf(extra)])
  }

  lemma RaisedSpans(t: Tree, extra: nat)
    ensures Shape(Raised(t, extra), 1) && Spans(Raised(t, extra), 1, 0, LBLK_LIMIT) == [Span(extra, 0, LBLK_LIMIT)]
  {
    var t', r := Raised(t, extra), [Span(extra, 0, LBLK_LIMIT)];
    assert t'.kids[0] == Leaf(extra);
    KidSpansLast(t', 1, 0, 1, 0, LBLK_LIMIT);
    assert [] + r == r;
  }

  lemma RaisedKeeps(t: Tree, extra: nat, m: nat, n: nat)
    requires Shape(t, 0) && t.block != extra && 2 <= m < n
    ensures var t' := Raised(t, extra);
            Shape(t', 1) && Ordered(t', 0, LBLK_LIMIT) && Separate(t') && Caps(t', m, n) && Grown(t, t', extra)
  {
    var kid := Leaf(extra);
    assert Shape(kid, 0) && Ordered(kid, 0, LBLK_LIMIT) && Separate(kid) && Caps(kid, n, n);
    assert !On(kid, t.block);
  }

  lemma RootLeafSplit(t: Tree, leaves: map<int, seq<Extent>>, m: nat, n: nat, extra: nat)
    requires IsTree(t, 0, leaves, m, n) && !On(t, extra) && LeafAt(leaves, t.block) != []
    ensures var t', leaves' := Raised(t, extra), leaves[extra := LeafAt(leaves, t.block)];
            IsTree(t', 1, leaves', m, n) && Extents(t', 1, leaves') == Extents(t, 0, leaves) && Grown(t, t', extra)
  {
    var leaves' := leaves[extra := LeafAt(leaves, t.block)];
    RaisedSpans(t, extra);
    RaisedKeeps(t, extra, m, n);
    OneFlat(Span(extra, 0, LBLK_LIMIT), leaves');
    OneFlat(Span(t.block, 0, LBLK_LIMIT), leaves);
  }

  lemma RootSplit(t: Tree, d: nat, leaves: map<int, seq<Extent>>, m: nat, n: nat, extra: nat, g: nat)
    requires 0 < d && IsTree(t, d, leaves, m, n) && !On(t, extra)
    ensures var t' := Deeper(t, extra);
            IsTree(t', d + 1, leaves, m, n) && Extents(t', d + 1, leaves) == Extents(t, d, leaves) && Grown(t, t', extra) &&
            Sub(t', d + 1, g, 1) == Inner(extra, t.keys, t.kids) && Route(t', d + 1, g) == Route(t, d, g)
  {
    DeeperKeeps(t, d, extra, 0, LBLK_LIMIT);
    DeeperRoute(t, d, extra, g);
    DeeperSpans(t, d, extra, 0, LBLK_LIMIT);
    DeeperCaps(t, extra, m, n);
  }

  /** An index node gives its entries from c on to a new one, of which its parent gets an entry. */
  lemma IndexSplit(t: Tree, d: nat, leaves: map<int, seq<Extent>>, m: nat, n: nat, g: nat, k: nat, c: nat, extra: nat)
    requires k + 1 < d && IsTree(t, d, leaves, m, n) && !On(t, extra) && g < LBLK_LIMIT
    requires 0 < c < |Sub(t, d, g, k + 1).keys| && |Sub(t, d, g, k).keys| < Cap(k, m, n)
    ensures var t' := SplitAt(t, d, g, k, c, extra);
            IsTree(t', d, leaves, m, n) && Extents(t', d, leaves) == Extents(t, d, leaves) && Grown(t, t', extra)
    ensures var x, y := Sub(t, d, g, k + 1), Sub(SplitAt(t, d, g, k, c, extra), d, g, k + 1);
            x.Inner? && y == if x.keys[c] <= g then Upper(x, c, extra) else Lower(x, c)
  {
    SplitAtKeeps(t, d, g, k, c, extra, 0, LBLK_LIMIT);
    SplitAtSpans(t, d, g, k, c, extra, 0, LBLK_LIMIT);
    SplitAtCaps(t, d, g, k, c, extra, m, n);
    SplitAtNext(t, d, g, k, c, extra, 0, LBLK_LIMIT);
  }

  lemma LeafSplits(t: Tree, d: nat, leaves: map<int, seq<Extent>>, m: nat, n: nat, g: nat, b: nat, c: nat, extra: nat)
    requires 0 < d && IsTree(t, d, leaves, m, n) && !On(t, extra) && g < LBLK_LIMIT && b == Route(t, d, g) && b in leaves
    requires 0 < c < |leaves[b]| && Shape(Sub(t, d, g, d - 1), 1) && |Sub(t, d, g, d - 1).keys| < Cap(d - 1, m, n)
    ensures var t', leaves' := InsertAt(t, d, g, leaves[b][c].lblk, extra), leaves[b := leaves[b][..c]][extra := leaves[b][c..]];
            IsTree(t', d, leaves', m, n) && Extents(t', d, leaves') == Extents(t, d, leaves) && Grown(t, t', extra) &&
            Route(t', d, g) == if leaves[b][c].lblk <= g then extra else b
  {
    var s := leaves[b];
    var key := s[c].lblk;
    var t', leaves' := InsertAt(t, d, g, key, extra), leaves[b := s[..c]][extra := s[c..]];
    RouteOn(t, d, g);
    LeafSplit(t, t', d, g, b, c, key, extra, s, leaves, leaves', n);
    InsertAtKeeps(t, d, g, key, extra, 0, LBLK_LIMIT);
    InsertAtCaps(t, d, g, key, extra, m, n);
    InsertAtRoute(t, d, g, key, extra, 0, LBLK_LIMIT, g);
    SubOrdered(t, d, g, d, 0, LBLK_LIMIT);
  }

  // ----- Going down -----

  /** All extents together do not overlap, and are in order. */
  lemma {:induction false} FlatInOrder(s: seq<Span>, leaves: map<int, seq<Extent>>, max: nat, lo: nat, hi: nat)
    requires InOrder(s, lo, hi) && AllFit(s, leaves, max)
    ensures LeafFits(Flat(s, leaves), lo, hi, |Flat(s, leaves)|)
  {
    if s != [] {
      assert FitsAt(s[0], leaves, max);
      assert InOrder(s[1..], s[0].hi, hi);
      FlatInOrder(s[1..], leaves, max, s[0].hi, hi);
      FitTogether(LeafAt(leaves, s[0].block), Flat(s[1..], leaves), s[0].lo, s[0].hi, hi, lo);
    }
  }

  lemma FitTogether(a: seq<Extent>, b: seq<Extent>, from: nat, mid: nat, hi: nat, lo: nat)
    requires lo <= from <= mid <= hi && LeafFits(a, from, mid, |a|) && LeafFits(b, mid, hi, |b|)
    ensures LeafFits(a + b, lo, hi, |a + b|)
  {
  }

  lemma ExtentsWellFormed(t: Tree, d: nat, leaves: map<int, seq<Extent>>, m: nat, n: nat)
    requires IsTree(t, d, leaves, m, n)
    ensures WellFormed(Extents(t, d, leaves))
  {
    if d == 0 {
      OneFlat(Span(t.block, 0, LBLK_LIMIT), leaves);
    } else {
      SpansInOrder(t, d, 0, LBLK_LIMIT);
      FlatInOrder(Spans(t, d, 0, LBLK_LIMIT), leaves, n, 0, LBLK_LIMIT);
    }
  }

  lemma RoutedFits(t: Tree, d: nat, leaves: map<int, seq<Extent>>, m: nat, n: nat, g: nat)
    requires IsTree(t, d, leaves, m, n) && 0 < d
    ensures FitsAt(Span(Route(t, d, g), Lo(t, d, g, d, 0), Hi(t, d, g, d, LBLK_LIMIT)), leaves, n)
  {
    var before, behind := SpanOfHash(t, d, g, 0, LBLK_LIMIT);
    var x := Span(Route(t, d, g), Lo(t, d, g, d, 0), Hi(t, d, g, d, LBLK_LIMIT));
    FitAround(before, [x], behind, leaves, n);
    assert FitsAt([x][0], leaves, n);
  }

  /** Where `ext2fs_extent_goto2` looks for a logical block is its extent, if any leaf has one. */
  lemma LooksRight(t: Tree, d: nat, leaves: map<int, seq<Extent>>, m: nat, n: nat, g: nat)
    requires IsTree(t, d, leaves, m, n)
    ensures WellFormed(LeafAt(leaves, Route(t, d, g)))
    ensures Lookup(LeafAt(leaves, Route(t, d, g)), g) == Lookup(Extents(t, d, leaves), g)
  {
    if d == 0 {
      OneFlat(Span(t.block, 0, LBLK_LIMIT), leaves);
    } else {
      RoutedFits(t, d, leaves, m, n, g);
      if g < LBLK_LIMIT {
        LeafDecides(t, d, leaves, n, g);
      } else {
        ExtentsWellFormed(t, d, leaves, m, n);
        LookupNone(LeafAt(leaves, Route(t, d, g)), g);
        LookupNone(Extents(t, d, leaves), g);
      }
    }
  }

  ghost predicate Strict(keys: seq<nat>) {
    forall i, j :: 0 < i < j < |keys| ==> keys[i] < keys[j]
  }

  /** No leaf has equal bounds. */
  ghost predicate AllWide(s: seq<Span>) {
    forall i :: 0 <= i < |s| ==> s[i].lo < s[i].hi
  }

  lemma FitIsWide(s: seq<Span>, leaves: map<int, seq<Extent>>, max: nat)
    requires AllFit(s, leaves, max)
    ensures AllWide(s)
  {
    forall i | 0 <= i < |s| ensures s[i].lo < s[i].hi {
      assert FitsAt(s[i], leaves, max);
      assert leaves[s[i].block][0].lblk < leaves[s[i].block][0].End();
    }
  }

  lemma WidePart(a: seq<Span>, m: seq<Span>, b: seq<Span>)
    requires AllWide(a + m + b)
    ensures AllWide(m)
  {
    forall i | 0 <= i < |m| ensures m[i].lo < m[i].hi {
      assert (a + m + b)[|a| + i] == m[i];
    }
  }

  lemma {:induction false} WideBounds(t: Tree, d: nat, lo: nat, hi: nat)
    requires Shape(t, d) && Ordered(t, lo, hi) && AllWide(Spans(t, d, lo, hi))
    ensures lo < hi
    decreases d, 0
  {
    if d == 0 {
      assert Spans(t, d, lo, hi)[0] == Span(t.block, lo, hi);
    } else {
      WideKid(t, d, 0, lo, hi);
      KidBounds(t.keys, 0, lo, hi);
    }
  }

  lemma {:induction false} WideKid(t: Tree, d: nat, i: nat, lo: nat, hi: nat)
    requires Shape(t, d) && 0 < d && Ordered(t, lo, hi) && AllWide(Spans(t, d, lo, hi)) && i < |t.kids|
    ensures AllWide(Spans(t.kids[i], d - 1, Bound(t.keys, i, lo, hi), Bound(t.keys, i + 1, lo, hi)))
    ensures Bound(t.keys, i, lo, hi) < Bound(t.keys, i + 1, lo, hi)
    decreases d - 1, 1
  {
    KidSpansAround(t, d, i, lo, hi);
    WidePart(KidSpans(t, d, 0, i, lo, hi), Spans(t.kids[i], d - 1, Bound(t.keys, i, lo, hi), Bound(t.keys, i + 1, lo, hi)),
             KidSpans(t, d, i + 1, |t.kids|, lo, hi));
    WideBounds(t.kids[i], d - 1, Bound(t.keys, i, lo, hi), Bound(t.keys, i + 1, lo, hi));
  }

  /** Since no leaf is empty, no two keys of a node are equal. */
  lemma WideStrict(t: Tree, d: nat, lo: nat, hi: nat)
    requires Shape(t, d) && 0 < d && Ordered(t, lo, hi) && AllWide(Spans(t, d, lo, hi))
    ensures Strict(t.keys)
  {
    forall i, j | 0 < i < j < |t.keys| ensures t.keys[i] < t.keys[j] {
      WideKid(t, d, i, lo, hi);
      assert Bound(t.keys, i + 1, lo, hi) == t.keys[i + 1] <= t.keys[j];
    }
  }

  /** The scan for g of an index node ends beyond the entry that is followed, from where it steps back. */
  predicate StepsBack(keys: seq<nat>, g: nat)
    requires keys != []
  {
    var i := At(keys, g);
    i + 1 < |keys| && (i > 0 ==> keys[i] != g)
  }

  /** The scan of `ext2fs_extent_goto2` in an index node, and whether it steps back at its end. */
  method KidFor(keys: seq<nat>, g: nat) returns (i: nat, back: bool)
    requires keys != [] && Strict(keys)
    ensures i < |keys| && i == At(keys, g) && (back <==> StepsBack(keys, g))
  {
    i, back := 0, false;
    while i + 1 < |keys|
      invariant i < |keys| && (i > 0 ==> keys[i] < g)
    {
      if g == keys[i + 1] {
        i := i + 1;
        break;
      }
      if g < keys[i + 1] {
        back := true;
        break;
      }
      i := i + 1;
    }
    AtIs(keys, g, i);
  }

  // ----- Nodes below one that is split -----

  lemma {:induction false} SubOfSub(t: Tree, d: nat, g: nat, k: nat, r: nat, j: nat)
    requires Shape(t, d) && k + j <= d && r == d - k && Shape(Sub(t, d, g, k), r)
    ensures Sub(t, d, g, k + j) == Sub(Sub(t, d, g, k), r, g, j)
    decreases k
  {
    if k > 0 {
      SubOfSub(t.kids[At(t.keys, g)], d - 1, g, k - 1, r, j);
    }
  }

  lemma RaisedBelow(t: Tree, leaves: map<int, seq<Extent>>, extra: nat, g: nat)
    requires Shape(t, 0)
    ensures var t', leaves' := Raised(t, extra), leaves[extra := LeafAt(leaves, t.block)];
            Shape(t', 1) && Count(t', 1, leaves', 0, g) == Count(t, 0, leaves, 0, g)
  {
    var t' := Raised(t, extra);
    RaisedSpans(t, extra);
    assert At(t'.keys, g) == 0;
    assert Route(t', 1, g) == extra;
  }

  /** The root's entries are in its kid now. */
  lemma RootBelow(t: Tree, d: nat, leaves: map<int, seq<Extent>>, extra: nat, g: nat, j: nat)
    requires Shape(t, d) && 0 < d && j <= d
    ensures Shape(Deeper(t, extra), d + 1)
    ensures Count(Deeper(t, extra), d + 1, leaves, j, g) == Count(t, d, leaves, j, g)
  {
    DeeperRoute(t, d, extra, g);
    var kid := Inner(extra, t.keys, t.kids);
    if 0 < j {
      SubOfSub(Deeper(t, extra), d + 1, g, 1, d, d - j);
      assert Shape(kid, d) && Sub(kid, d, g, d - j).keys == Sub(t, d, g, d - j).keys;
    }
  }

  lemma HalfNext(x: Tree, d: nat, c: nat, extra: nat, g: nat, lo: nat, hi: nat)
    requires Shape(x, d) && 0 < d && 0 < c < |x.keys| && KeysInOrder(x.keys, lo, hi)
    ensures var y := if x.keys[c] <= g then Upper(x, c, extra) else Lower(x, c);
            Shape(y, d) && y.kids[At(y.keys, g)] == x.kids[At(x.keys, g)]
  {
    SplitShape(x, d, c, extra);
    var i := At(x.keys, g);
    AtHolds(x.keys, g);
    if x.keys[c] <= g {
      AtIs(x.keys[c..], g, i - c);
    } else {
      AtIs(x.keys[..c], g, i);
    }
  }

  lemma SameKidSub(x: Tree, y: Tree, r: nat, g: nat, i: nat)
    requires Shape(x, r) && Shape(y, r) && 0 < i <= r && y.kids[At(y.keys, g)] == x.kids[At(x.keys, g)]
    ensures Sub(y, r, g, i) == Sub(x, r, g, i)
  {
    var a, b := x.kids[At(x.keys, g)], y.kids[At(y.keys, g)];
    assert a == b && Sub(a, r - 1, g, i - 1) == Sub(b, r - 1, g, i - 1);
  }

  lemma SubFrom(t: Tree, d: nat, g: nat, k: nat, r: nat, x: Tree, i: nat, q: nat)
    requires Shape(t, d) && k <= d && r == d - k && i <= r && q == k + i && Shape(x, r) && x == Sub(t, d, g, k)
    ensures q <= d && Sub(t, d, g, q) == Sub(x, r, g, i)
  {
    SubOfSub(t, d, g, k, r, i);
  }

  lemma SubBelow(t: Tree, t': Tree, d: nat, g: nat, k: nat, r: nat, x: Tree, y: Tree, i: nat, q: nat)
    requires Shape(t, d) && Shape(t', d) && k <= d && r == d - k && 0 < i <= r && q == k + i && Shape(x, r) && Shape(y, r)
    requires x == Sub(t, d, g, k) && y == Sub(t', d, g, k) && y.kids[At(y.keys, g)] == x.kids[At(x.keys, g)]
    ensures q <= d && Sub(t', d, g, q) == Sub(t, d, g, q)
  {
    SubFrom(t, d, g, k, r, x, i, q);
    SubFrom(t', d, g, k, r, y, i, q);
    SameKidSub(x, y, r, g, i);
  }

  lemma CountSame(t: Tree, t': Tree, d: nat, leaves: map<int, seq<Extent>>, g: nat, h: nat, q: nat)
    requires Shape(t, d) && Shape(t', d) && h <= d && q == d - h && Sub(t', d, g, q) == Sub(t, d, g, q)
    requires Route(t', d, g) == Route(t, d, g)
    ensures Count(t', d, leaves, h, g) == Count(t, d, leaves, h, g)
  {
  }

  ghost predicate SameBelow(t: Tree, d: nat, leaves: map<int, seq<Extent>>, t': Tree, d': nat, leaves': map<int, seq<Extent>>, g: nat, h: nat)
    requires Shape(t, d) && Shape(t', d') && h <= d && h <= d'
  {
    forall j: nat :: j < h ==> Count(t', d', leaves', j, g) == Count(t, d, leaves, j, g)
  }

  /** An index node that is split: how many entries the half that g leads to has, and what is below. */
  lemma IndexCounts(t: Tree, d: nat, leaves: map<int, seq<Extent>>, m: nat, n: nat, g: nat, k: nat, c: nat, extra: nat, h: nat)
    requires k + 1 < d && h == d - (k + 1) && IsTree(t, d, leaves, m, n) && !On(t, extra) && g < LBLK_LIMIT
    requires 0 < c < |Sub(t, d, g, k + 1).keys| && |Sub(t, d, g, k).keys| < Cap(k, m, n)
    ensures var t' := SplitAt(t, d, g, k, c, extra);
            SameBelow(t, d, leaves, t', d, leaves, g, h) &&
            Count(t', d, leaves, h, g) == if Sub(t, d, g, k + 1).keys[c] <= g then Count(t, d, leaves, h, g) - c else c
  {
    var t', r := SplitAt(t, d, g, k, c, extra), k + 1;
    IndexSplit(t, d, leaves, m, n, g, k, c, extra);
    SplitAtRoute(t, d, g, k, c, extra, 0, LBLK_LIMIT, g);
    SubOrdered(t, d, g, r, 0, LBLK_LIMIT);
    var x, y := Sub(t, d, g, r), Sub(t', d, g, r);
    HalfNext(x, h, c, extra, g, Lo(t, d, g, r, 0), Hi(t, d, g, r, LBLK_LIMIT));
    assert h > 0 && d - h == r && |y.keys| == if x.keys[c] <= g then |x.keys| - c else c;
    forall j: nat | j < h ensures Count(t', d, leaves, j, g) == Count(t, d, leaves, j, g) {
      SubBelow(t, t', d, g, r, h, x, y, h - j, d - j);
      CountSame(t, t', d, leaves, g, j, d - j);
    }
  }

  // ----- The bounds of the leaf that is searched -----

  /** The bounds of the leaf of g are as before, or one that is closer is the beginning of an extent. */
  ghost predicate Bounded(t: Tree, d: nat, t': Tree, d': nat, s: seq<Extent>, g: nat) {
    && Shape(t, d) && Shape(t', d')
    && (Lo(t', d', g, d', 0) == Lo(t, d, g, d, 0) || (Lo(t', d', g, d', 0) <= g && StartsAt(s, Lo(t', d', g, d', 0))))
    && (Hi(t', d', g, d', LBLK_LIMIT) == Hi(t, d, g, d, LBLK_LIMIT) ||
        (g < Hi(t', d', g, d', LBLK_LIMIT) && StartsAt(s, Hi(t', d', g, d', LBLK_LIMIT))))
  }

  ghost predicate StartsAt(s: seq<Extent>, l: nat) {
    exists i :: 0 <= i < |s| && s[i].lblk == l
  }

  lemma BoundedTrans(t: Tree, d: nat, u: Tree, d1: nat, t': Tree, d': nat, s: seq<Extent>, g: nat)
    requires Bounded(t, d, u, d1, s, g) && Bounded(u, d1, t', d', s, g)
    ensures Bounded(t, d, t', d', s, g)
  {
  }

  /** A leaf is in the list once, and so are its bounds. */
  lemma SpanIs(t: Tree, d: nat, g: nat, i: nat)
    requires Shape(t, d) && Separate(t) && i < |Spans(t, d, 0, LBLK_LIMIT)| && Spans(t, d, 0, LBLK_LIMIT)[i].block == Route(t, d, g)
    ensures Spans(t, d, 0, LBLK_LIMIT)[i] == Span(Route(t, d, g), Lo(t, d, g, d, 0), Hi(t, d, g, d, LBLK_LIMIT))
  {
    var before, behind := SpanOfHash(t, d, g, 0, LBLK_LIMIT);
    SpansDistinct(t, d, 0, LBLK_LIMIT);
    var s := Spans(t, d, 0, LBLK_LIMIT);
    assert s[|before|] == Span(Route(t, d, g), Lo(t, d, g, d, 0), Hi(t, d, g, d, LBLK_LIMIT));
  }

  /** With the same leaves and the same way, the bounds are the same. */
  lemma SameBounds(t: Tree, d: nat, t': Tree, d': nat, s: seq<Extent>, g: nat)
    requires Shape(t, d) && Shape(t', d') && Separate(t') && Spans(t', d', 0, LBLK_LIMIT) == Spans(t, d, 0, LBLK_LIMIT)
    requires Route(t', d', g) == Route(t, d, g)
    ensures Bounded(t, d, t', d', s, g)
  {
    var before, behind := SpanOfHash(t, d, g, 0, LBLK_LIMIT);
    assert Spans(t, d, 0, LBLK_LIMIT)[|before|] == Span(Route(t, d, g), Lo(t, d, g, d, 0), Hi(t, d, g, d, LBLK_LIMIT));
    SpanIs(t', d', g, |before|);
  }

  lemma RootBounds(t: Tree, d: nat, leaves: map<int, seq<Extent>>, m: nat, n: nat, extra: nat, s: seq<Extent>, g: nat)
    requires IsTree(t, d, leaves, m, n) && !On(t, extra)
    ensures Bounded(t, d, if d == 0 then Raised(t, extra) else Deeper(t, extra), d + 1, s, g)
  {
    if d == 0 {
      RaisedSpans(t, extra);
      RaisedKeeps(t, extra, m, n);
      var t' := Raised(t, extra);
      assert At(t'.keys, g) == 0;
    } else {
      DeeperKeeps(t, d, extra, 0, LBLK_LIMIT);
      DeeperSpans(t, d, extra, 0, LBLK_LIMIT);
      DeeperRoute(t, d, extra, g);
      SameBounds(t, d, Deeper(t, extra), d + 1, s, g);
    }
  }

  lemma IndexBounds(t: Tree, d: nat, leaves: map<int, seq<Extent>>, m: nat, n: nat, g: nat, k: nat, c: nat, extra: nat, s: seq<Extent>)
    requires k + 1 < d && IsTree(t, d, leaves, m, n) && !On(t, extra) && g < LBLK_LIMIT && 0 < c < |Sub(t, d, g, k + 1).keys|
    ensures Bounded(t, d, SplitAt(t, d, g, k, c, extra), d, s, g)
  {
    SplitAtKeeps(t, d, g, k, c, extra, 0, LBLK_LIMIT);
    SplitAtSpans(t, d, g, k, c, extra, 0, LBLK_LIMIT);
    SplitAtRoute(t, d, g, k, c, extra, 0, LBLK_LIMIT, g);
    SameBounds(t, d, SplitAt(t, d, g, k, c, extra), d, s, g);
  }

  /** A leaf parted at the beginning of one of its extents. */
  lemma LeafBounds(t: Tree, d: nat, t': Tree, g: nat, key: nat, extra: nat, s: seq<Extent>)
    requires Shape(t, d) && 0 < d && Ordered(t, 0, LBLK_LIMIT) && Separate(t) && !On(t, extra) && g < LBLK_LIMIT
    requires Lo(t, d, g, d, 0) <= key <= Hi(t, d, g, d, LBLK_LIMIT) && StartsAt(s, key)
    requires Shape(t', d) && t' == InsertAt(t, d, g, key, extra) && Separate(t')
    requires Route(t', d, g) == if key <= g then extra else Route(t, d, g)
    ensures Bounded(t, d, t', d, s, g)
  {
    var before, behind := InsertAtSpans(t, d, g, key, extra, 0, LBLK_LIMIT);
    var b, lo, hi := Route(t, d, g), Lo(t, d, g, d, 0), Hi(t, d, g, d, LBLK_LIMIT);
    var all := Spans(t', d, 0, LBLK_LIMIT);
    assert all[|before|] == Span(b, lo, key) && all[|before| + 1] == Span(extra, key, hi);
    SpanIs(t', d, g, if key <= g then |before| + 1 else |before|);
  }

  lemma RootWhole(t: Tree, d: nat, leaves: map<int, seq<Extent>>, free: seq<nat>, m: nat, n: nat, g: nat)
    requires IsTree(t, d, leaves, m, n) && free != [] && FreeOf(free, t) && Count(t, d, leaves, d, g) > 0
    ensures var t' := if d == 0 then Raised(t, free[0]) else Deeper(t, free[0]);
            var leaves' := if d == 0 then leaves[free[0] := LeafAt(leaves, t.block)] else leaves;
            IsTree(t', d + 1, leaves', m, n) && FreeOf(free[1..], t') && Extents(t', d + 1, leaves') == Extents(t, d, leaves) &&
            SameBelow(t, d, leaves, t', d + 1, leaves', g, d) && Count(t', d + 1, leaves', d, g) == Count(t, d, leaves, d, g) &&
            Bounded(t, d, t', d + 1, Extents(t, d, leaves), g)
  {
    var extra := free[0];
    FirstFree(free, t);
    RootBounds(t, d, leaves, m, n, extra, Extents(t, d, leaves), g);
    if d == 0 {
      RootLeafSplit(t, leaves, m, n, extra);
      RaisedBelow(t, leaves, extra, g);
      FreeRest(free, t, Raised(t, extra));
    } else {
      var t' := Deeper(t, extra);
      RootSplit(t, d, leaves, m, n, extra, g);
      forall j: nat | j <= d ensures Count(t', d + 1, leaves, j, g) == Count(t, d, leaves, j, g) {
        RootBelow(t, d, leaves, extra, g, j);
      }
      FreeRest(free, t, t');
    }
  }

  lemma LeafWhole(t: Tree, d: nat, leaves: map<int, seq<Extent>>, free: seq<nat>, m: nat, n: nat, g: nat, b: nat, c: nat)
    requires 0 < d && IsTree(t, d, leaves, m, n) && free != [] && FreeOf(free, t) && g < LBLK_LIMIT && b == Route(t, d, g)
    requires 0 < c < Count(t, d, leaves, 0, g) && Count(t, d, leaves, 1, g) < Cap(d - 1, m, n)
    ensures b in leaves && c < |leaves[b]|
    ensures var s, extra := leaves[b], free[0];
            var t', leaves' := InsertAt(t, d, g, s[c].lblk, extra), leaves[b := s[..c]][extra := s[c..]];
            IsTree(t', d, leaves', m, n) && FreeOf(free[1..], t') && Extents(t', d, leaves') == Extents(t, d, leaves) &&
            Bounded(t, d, t', d, Extents(t, d, leaves), g) &&
            Count(t', d, leaves', 0, g) == if s[c].lblk <= g then |s| - c else c
  {
    var s, extra := leaves[b], free[0];
    FirstFree(free, t);
    assert Shape(Sub(t, d, g, d - 1), 1);
    RouteOn(t, d, g);
    LeafSplits(t, d, leaves, m, n, g, b, c, extra);
    FreeRest(free, t, InsertAt(t, d, g, s[c].lblk, extra));
    PartStarts(t, d, leaves, m, n, g, b, c);
    LeafBounds(t, d, InsertAt(t, d, g, s[c].lblk, extra), g, s[c].lblk, extra, Extents(t, d, leaves));
  }

  lemma PartStarts(t: Tree, d: nat, leaves: map<int, seq<Extent>>, m: nat, n: nat, g: nat, b: nat, c: nat)
    requires 0 < d && IsTree(t, d, leaves, m, n) && b == Route(t, d, g) && b in leaves && c < |leaves[b]|
    ensures Lo(t, d, g, d, 0) <= leaves[b][c].lblk <= Hi(t, d, g, d, LBLK_LIMIT) && StartsAt(Extents(t, d, leaves), leaves[b][c].lblk)
  {
    RoutedFits(t, d, leaves, m, n, g);
    var before, behind := SpanOfHash(t, d, g, 0, LBLK_LIMIT);
    var x := Span(b, Lo(t, d, g, d, 0), Hi(t, d, g, d, LBLK_LIMIT));
    FlatAround(before, [x], behind, leaves);
    OneFlat(x, leaves);
    var all, f := Extents(t, d, leaves), Flat(before, leaves);
    assert all[|f| + c] == leaves[b][c];
  }

  /** Only a root without a kid may be empty. */
  lemma NotEmpty(t: Tree, d: nat, leaves: map<int, seq<Extent>>, m: nat, n: nat, h: nat, g: nat)
    requires IsTree(t, d, leaves, m, n) && h <= d && 0 < d
    ensures Count(t, d, leaves, h, g) > 0
  {
    if h == 0 {
      RoutedFits(t, d, leaves, m, n, g);
    } else {
      assert Shape(Sub(t, d, g, d - h), h);
    }
  }

  lemma NotEmptyLeaf(t: Tree, d: nat, leaves: map<int, seq<Extent>>, m: nat, n: nat, g: nat)
    requires IsTree(t, d, leaves, m, n) && Count(t, d, leaves, d, g) > 0
    ensures LeafAt(leaves, Route(t, d, g)) != []
  {
    if d > 0 {
      NotEmpty(t, d, leaves, m, n, 0, g);
    }
  }

  lemma EmptyMisses(t: Tree, d: nat, leaves: map<int, seq<Extent>>, m: nat, n: nat, g: nat)
    requires IsTree(t, d, leaves, m, n) && Count(t, d, leaves, d, g) == 0
    ensures Lookup(Extents(t, d, leaves), g) == None
  {
    if d > 0 {
      NotEmpty(t, d, leaves, m, n, d, g);
    }
    LooksRight(t, d, leaves, m, n, g);
  }

  /** No node has more entries than it can hold. */
  lemma CountBound(t: Tree, d: nat, leaves: map<int, seq<Extent>>, m: nat, n: nat, h: nat, g: nat)
    requires IsTree(t, d, leaves, m, n) && h <= d
    ensures Count(t, d, leaves, h, g) <= Cap(d - h, m, n)
  {
    if h > 0 {
      SubCaps(t, d, g, d - h, m, n);
      assert Shape(Sub(t, d, g, d - h), h);
    } else if d > 0 {
      RoutedFits(t, d, leaves, m, n, g);
    }
  }

  /** Of n entries k are in the node that is searched on: one, if that is the last of all, or else about half. */
  predicate Parts(n: nat, k: nat, last: bool) {
    if last then k == 1 else k == n / 2 || k == n - n / 2
  }

  lemma {:induction false} EndAt(t: Tree, d: nat, g: nat, k: nat)
    requires Shape(t, d) && k < d && AtEnd(t, d, g, k + 1)
    ensures Shape(Sub(t, d, g, k), d - k)
    ensures var keys := Sub(t, d, g, k).keys; At(keys, g) == |keys| - 1 && (|keys| > 1 ==> keys[|keys| - 1] <= g)
    decreases k
  {
    if k > 0 {
      EndAt(t.kids[At(t.keys, g)], d - 1, g, k - 1);
    } else {
      AtHolds(t.keys, g);
    }
  }

  // ----- The end of the file -----

  /** Nothing in the list begins behind g. */
  ghost predicate NoneBehind(keys: seq<nat>, g: nat) {
    forall i :: 0 < i < |keys| ==> keys[i] <= g
  }

  /** That is so of the node j levels down on the way to g. */
  ghost predicate NoneBehindAt(t: Tree, d: nat, g: nat, j: nat)
    requires Shape(t, d)
  {
    j < d && NoneBehind(Sub(t, d, g, j).keys, g)
  }

  /** The last entry is followed on k levels exactly if none of those nodes has one that begins behind g. */
  lemma {:induction false} AtEndIs(t: Tree, d: nat, g: nat, k: nat, lo: nat, hi: nat)
    requires Shape(t, d) && k <= d && Ordered(t, lo, hi)
    ensures AtEnd(t, d, g, k) <==> forall j :: 0 <= j < k ==> NoneBehindAt(t, d, g, j)
    decreases k
  {
    if k > 0 {
      var i := At(t.keys, g);
      AtHolds(t.keys, g);
      var x := t.kids[i];
      AtEndIs(x, d - 1, g, k - 1, Bound(t.keys, i, lo, hi), Bound(t.keys, i + 1, lo, hi));
      assert NoneBehindAt(t, d, g, 0) <==> NoneBehind(t.keys, g);
      var below: nat := d - 1;
      if forall j :: 0 <= j < k - 1 ==> NoneBehindAt(x, below, g, j) {
        forall j | 0 < j < k ensures NoneBehindAt(t, d, g, j) {
          assert NoneBehindAt(x, below, g, j - 1);
        }
      } else {
        var j :| 0 <= j < k - 1 && !NoneBehindAt(x, below, g, j);
        assert !NoneBehindAt(t, d, g, j + 1);
      }
    }
  }

  /** The last leaf of all is the one that is reached so. */
  lemma {:induction false} EndSpan(t: Tree, d: nat, g: nat, lo: nat, hi: nat)
    requires Shape(t, d) && Ordered(t, lo, hi)
    ensures var s := Spans(t, d, lo, hi);
            s != [] && lo <= s[|s| - 1].lo && (s[|s| - 1].lo <= g ==> AtEnd(t, d, g, d))
            && (AtEnd(t, d, g, d) ==> s[|s| - 1].block == Route(t, d, g))
    decreases d
  {
    if d > 0 {
      var n, i := |t.kids|, At(t.keys, g);
      AtHolds(t.keys, g);
      var x, l, h := t.kids[n - 1], Bound(t.keys, n - 1, lo, hi), Bound(t.keys, n, lo, hi);
      EndSpan(x, d - 1, g, l, h);
      assert Spans(t, d, lo, hi) == KidSpans(t, d, 0, n - 1, lo, hi) + Spans(x, d - 1, l, h);
    }
  }

  /** The last extent of all is the last one of the last leaf. */
  lemma FlatLast(s: seq<Span>, leaves: map<int, seq<Extent>>, max: nat)
    requires s != [] && AllFit(s, leaves, max)
    ensures var e, all := s[|s| - 1], Flat(s, leaves); var l := LeafAt(leaves, e.block);
            l != [] && all != [] && all[|all| - 1] == l[|l| - 1] && e.lo <= l[|l| - 1].lblk
  {
    var e := s[|s| - 1];
    assert s == s[..|s| - 1] + [e];
    FlatConcat(s[..|s| - 1], [e], leaves);
    OneFlat(e, leaves);
    assert FitsAt(s[|s| - 1], leaves, max);
  }

  /** g comes to the last extent of the last leaf exactly if the last extent of the file does not begin behind it. */
  lemma EndIs(t: Tree, d: nat, leaves: map<int, seq<Extent>>, n: nat, g: nat)
    requires Shape(t, d) && Ordered(t, 0, LBLK_LIMIT) && AllFit(Spans(t, d, 0, LBLK_LIMIT), leaves, n)
    ensures var s, all := LeafAt(leaves, Route(t, d, g)), Extents(t, d, leaves);
            all != [] && (AtEnd(t, d, g, d) && s != [] && s[|s| - 1].lblk <= g <==> all[|all| - 1].lblk <= g)
  {
    EndSpan(t, d, g, 0, LBLK_LIMIT);
    EndOf(Spans(t, d, 0, LBLK_LIMIT), leaves, n, g, Route(t, d, g), AtEnd(t, d, g, d));
  }

  lemma EndOf(spans: seq<Span>, leaves: map<int, seq<Extent>>, n: nat, g: nat, b: nat, end: bool)
    requires spans != [] && AllFit(spans, leaves, n)
    requires (spans[|spans| - 1].lo <= g ==> end) && (end ==> spans[|spans| - 1].block == b)
    ensures var s, all := LeafAt(leaves, b), Flat(spans, leaves);
            all != [] && (end && s != [] && s[|s| - 1].lblk <= g <==> all[|all| - 1].lblk <= g)
  {
    FlatLast(spans, leaves, n);
  }

  // ----- The handle -----

  datatype Error = Ok | NotFound | NoCurrentNode | NotSupported | CantSplit | CantInsert | NoSpace

  /** A node without room for one entry more. */
  predicate Full(t: Tree, d: nat, leaves: map<int, seq<Extent>>, h: nat, g: nat, m: nat, n: nat)
    requires Shape(t, d) && h <= d
  {
    Count(t, d, leaves, h, g) >= Cap(d - h, m, n)
  }

  /** How many blocks it takes to split the node at height h: one for it, and one for every full node above it. */
  ghost function Need(t: Tree, d: nat, leaves: map<int, seq<Extent>>, h: nat, g: nat, m: nat, n: nat): (k: nat)
    requires Shape(t, d) && h <= d
    ensures 1 <= k <= d - h + 1
    decreases d - h
  {
    if h < d && Full(t, d, leaves, h + 1, g, m, n) then 1 + Need(t, d, leaves, h + 1, g, m, n) else 1
  }

  /** What comes of splitting a node with count entries, for which need blocks are needed. */
  function Outcome(need: nat, count: nat, root: bool, free: nat): (err: Error) {
    if count == 0 then NoCurrentNode
    else if free + 1 < need then NoSpace
    else if count == 1 && !root then CantSplit
    else if free < need then NoSpace
    else Ok
  }

  /** The node at height h has been split, together with those above it that were full: what is new then. */
  ghost predicate Grew(t: Tree, d: nat, leaves: map<int, seq<Extent>>, free: seq<nat>,
                       t': Tree, d': nat, leaves': map<int, seq<Extent>>, free': seq<nat>, g: nat, h: nat, m: nat, n: nat)
    requires Shape(t, d) && Shape(t', d') && h <= d && h <= d'
  {
    var need := Need(t, d, leaves, h, g, m, n);
    && need <= |free| && free' == free[need..] && d' == (if need == d - h + 1 then d + 1 else d)
    && !Full(t', d', leaves', h, g, m, n) && SameBelow(t, d, leaves, t', d', leaves', g, h)
  }

  lemma GrewOne(t: Tree, d: nat, leaves: map<int, seq<Extent>>, free: seq<nat>,
                t': Tree, leaves': map<int, seq<Extent>>, g: nat, h: nat, m: nat, n: nat)
    requires Shape(t, d) && Shape(t', d) && h < d && free != [] && !Full(t, d, leaves, h + 1, g, m, n)
    requires SameBelow(t, d, leaves, t', d, leaves', g, h) && !Full(t', d, leaves', h, g, m, n)
    ensures Grew(t, d, leaves, free, t', d, leaves', free[1..], g, h, m, n)
  {
  }

  lemma FullAbove(t: Tree, d: nat, leaves: map<int, seq<Extent>>, m: nat, n: nat, h: nat, g: nat)
    requires IsTree(t, d, leaves, m, n) && h < d && Full(t, d, leaves, h + 1, g, m, n)
    ensures Count(t, d, leaves, h, g) > 0 && Count(t, d, leaves, h + 1, g) > 1
    ensures Need(t, d, leaves, h, g, m, n) == Need(t, d, leaves, h + 1, g, m, n) + 1
  {
    NotEmpty(t, d, leaves, m, n, h, g);
  }

  lemma GrewAbove(t: Tree, d: nat, leaves: map<int, seq<Extent>>, free: seq<nat>,
                  u: Tree, d': nat, middle: map<int, seq<Extent>>, rest: seq<nat>,
                  t': Tree, leaves': map<int, seq<Extent>>, free': seq<nat>, g: nat, h: nat, m: nat, n: nat)
    requires Shape(t, d) && Shape(u, d') && Shape(t', d') && h < d && h < d' && Full(t, d, leaves, h + 1, g, m, n)
    requires Grew(t, d, leaves, free, u, d', middle, rest, g, h + 1, m, n)
    requires Grew(u, d', middle, rest, t', d', leaves', free', g, h, m, n) && !Full(u, d', middle, h + 1, g, m, n)
    ensures Grew(t, d, leaves, free, t', d', leaves', free', g, h, m, n)
  {
    var k := Need(t, d, leaves, h + 1, g, m, n);
    assert rest[1..] == free[k + 1..];
  }

  datatype State = State(tree: Tree, depth: nat, leaves: map<int, seq<Extent>>, free: seq<nat>)

  ghost predicate Whole(s: State, m: nat, n: nat) {
    IsTree(s.tree, s.depth, s.leaves, m, n) && FreeOf(s.free, s.tree)
  }

  ghost function ExtentsOf(s: State): (r: seq<Extent>)
    requires Shape(s.tree, s.depth)
  {
    Extents(s.tree, s.depth, s.leaves)
  }

  /**
   Splitting the node at height h leads from s to s', or is refused; no extent is touched, and a bound of the leaf of g that
   has come closer is the beginning of an extent.
   */
  ghost predicate SplitTo(s: State, s': State, err: Error, g: nat, h: nat, m: nat, n: nat) {
    && Whole(s, m, n) && Whole(s', m, n) && h <= s.depth <= s'.depth && ExtentsOf(s') == ExtentsOf(s)
    && Bounded(s.tree, s.depth, s'.tree, s'.depth, ExtentsOf(s), g)
    && err == Outcome(Need(s.tree, s.depth, s.leaves, h, g, m, n), Count(s.tree, s.depth, s.leaves, h, g), h == s.depth, |s.free|)
    && (err == Ok ==> Grew(s.tree, s.depth, s.leaves, s.free, s'.tree, s'.depth, s'.leaves, s'.free, g, h, m, n))
  }

  lemma RootStays(s: State, g: nat, m: nat, n: nat)
    requires Whole(s, m, n)
    ensures var count := Count(s.tree, s.depth, s.leaves, s.depth, g);
            count == 0 || s.free == [] ==> SplitTo(s, s, if count == 0 then NoCurrentNode else NoSpace, g, s.depth, m, n)
  {
  }

  /** The parent could not be split. */
  lemma RefusedAbove(s: State, u: State, err: Error, g: nat, h: nat, m: nat, n: nat)
    requires h < s.depth && SplitTo(s, u, err, g, h + 1, m, n) && err != Ok && Full(s.tree, s.depth, s.leaves, h + 1, g, m, n)
    ensures SplitTo(s, u, err, g, h, m, n)
  {
    FullAbove(s.tree, s.depth, s.leaves, m, n, h, g);
  }

  /** The parent has been split, and then the node. */
  lemma SplitBoth(s: State, u: State, s': State, err: Error, g: nat, h: nat, m: nat, n: nat)
    requires h < s.depth && SplitTo(s, u, Ok, g, h + 1, m, n) && Full(s.tree, s.depth, s.leaves, h + 1, g, m, n)
    requires SplitTo(u, s', err, g, h, m, n) && s'.depth == u.depth
    ensures SplitTo(s, s', err, g, h, m, n)
  {
    FullAbove(s.tree, s.depth, s.leaves, m, n, h, g);
    BoundedTrans(s.tree, s.depth, u.tree, u.depth, s'.tree, s'.depth, ExtentsOf(s), g);
    assert Need(u.tree, u.depth, u.leaves, h, g, m, n) == 1;
    if err == Ok {
      GrewAbove(s.tree, s.depth, s.leaves, s.free, u.tree, u.depth, u.leaves, u.free, s'.tree, s'.leaves, s'.free, g, h, m, n);
    }
  }

  class Handle {
    const rootMax: nat
    const nodeMax: nat
    var depth: nat
    var tree: Tree
    var leaves: map<int, seq<Extent>>
    var free: seq<nat>  // the blocks that `ext2fs_alloc_block2` is going to give
    var blocks: int     // added to the block count of the inode

    ghost predicate Valid()
      reads this
    {
      IsTree(tree, depth, leaves, rootMax, nodeMax) && FreeOf(free, tree)
    }

    ghost function Now(): (s: State)
      reads this
    {
      State(tree, depth, leaves, free)
    }

    /** A file without extents. */
    constructor (rootMax: nat, nodeMax: nat, root: nat, free: seq<nat>)
      requires 2 <= rootMax < nodeMax && FreeOf(free, Leaf(root))
      ensures Valid() && depth == 0 && tree == Leaf(root) && leaves == map[] && this.free == free && blocks == 0
      ensures this.rootMax == rootMax && this.nodeMax == nodeMax
    {
      this.rootMax, this.nodeMax, this.free := rootMax, nodeMax, free;
      depth, tree, leaves, blocks := 0, Leaf(root), map[], 0;
    }

    /** `ext2fs_extent_goto2` to the height h: the node that is reached. */
    method Goto(g: nat, h: nat) returns (err: Error, node: Tree)
      requires Valid()
      ensures err == if Count(tree, depth, leaves, depth, g) == 0 then NotFound else if h > depth then NotSupported else Ok
      ensures err == Ok ==> node == Sub(tree, depth, g, depth - h)
    {
      node := tree;
      var n := if depth == 0 then |LeafAt(leaves, tree.block)| else |tree.keys|;
      if n == 0 || h > depth {
        return if n == 0 then NotFound else NotSupported, node;
      }
      var level := 0;
      ghost var lo, hi := 0, LBLK_LIMIT;
      if depth > 0 {
        FitIsWide(Spans(tree, depth, 0, LBLK_LIMIT), leaves, nodeMax);
      }
      while level < depth - h
        invariant level <= depth - h && Shape(node, depth - level) && node == Sub(tree, depth, g, level)
        invariant Ordered(node, lo, hi) && (depth > 0 ==> AllWide(Spans(node, depth - level, lo, hi)))
      {
        WideStrict(node, depth - level, lo, hi);
        SubStep(tree, depth, g, level);
        var i, _ := KidFor(node.keys, g);
        WideKid(node, depth - level, i, lo, hi);
        lo, hi := Bound(node.keys, i, lo, hi), Bound(node.keys, i + 1, lo, hi);
        node, level := node.kids[i], level + 1;
      }
      return Ok, node;
    }

    /** `ext2fs_extent_goto2` to the leaves. */
    method Find(g: nat) returns (err: Error, e: Extent)
      requires Valid()
      ensures err == if Lookup(Extents(tree, depth, leaves), g).Some? then Ok else NotFound
      ensures err == Ok ==>
                e.Contains(g) && Lookup(Extents(tree, depth, leaves), g) == Some(Target(e.pblk + (g - e.lblk), e.uninit))
    {
      var leaf;
      e := Extent(0, 0, 0, false);
      LooksRight(tree, depth, leaves, rootMax, nodeMax, g);
      err, leaf := Goto(g, 0);
      if err != Ok {
        EmptyMisses(tree, depth, leaves, rootMax, nodeMax, g);
        return;
      }
      NotEmptyLeaf(tree, depth, leaves, rootMax, nodeMax, g);
      RouteIsSub(tree, depth, g, depth);
      var s := LeafAt(leaves, leaf.block);
      var (found, i) := GotoFrom(s, g, 0);
      if found {
        LookupAt(s, i, g);
        return Ok, s[i];
      }
      GotoMisses(s, g, 0);
      LookupNone(s, g);
      err := NotFound;
    }

    /** The entries of the root move to a new node. */
    method MoveRoot(ghost g: nat)
      requires Valid() && free != [] && Count(tree, depth, leaves, depth, g) > 0
      modifies this`depth, this`tree, this`leaves, this`free, this`blocks
      ensures Valid() && depth == old(depth) + 1 && Extents(tree, depth, leaves) == old(Extents(tree, depth, leaves))
      ensures free == old(free[1..]) && blocks == old(blocks) + 1
      ensures SameBelow(old(tree), old(depth), old(leaves), tree, depth, leaves, g, old(depth))
      ensures Count(tree, depth, leaves, old(depth), g) == old(Count(tree, depth, leaves, depth, g))
      ensures Bounded(old(tree), old(depth), tree, depth, Extents(tree, depth, leaves), g)
    {
      RootWhole(tree, depth, leaves, free, rootMax, nodeMax, g);
      if depth == 0 {
        leaves := leaves[free[0] := LeafAt(leaves, tree.block)];
        tree := Raised(tree, free[0]);
      } else {
        tree := Deeper(tree, free[0]);
      }
      depth, free, blocks := depth + 1, free[1..], blocks + 1;
    }

    method HalveIndex(g: nat, h: nat, c: nat)
      requires Valid() && free != [] && g < LBLK_LIMIT && 0 < h < depth && 0 < c < Count(tree, depth, leaves, h, g)
      requires !Full(tree, depth, leaves, h + 1, g, rootMax, nodeMax)
      modifies this`tree, this`free, this`blocks
      ensures Valid() && Extents(tree, depth, leaves) == old(Extents(tree, depth, leaves))
      ensures free == old(free[1..]) && blocks == old(blocks) + 1
      ensures SameBelow(old(tree), depth, leaves, tree, depth, leaves, g, h)
      ensures old(Shape(Sub(tree, depth, g, depth - h), h)) && c < |old(Sub(tree, depth, g, depth - h).keys)|
      ensures Count(tree, depth, leaves, h, g) ==
              if old(Sub(tree, depth, g, depth - h).keys)[c] <= g then old(Count(tree, depth, leaves, h, g)) - c else c
      ensures Bounded(old(tree), depth, tree, depth, Extents(tree, depth, leaves), g)
    {
      ghost var t := tree;
      var extra, k := free[0], depth - h - 1;
      FirstFree(free, t);
      IndexSplit(tree, depth, leaves, rootMax, nodeMax, g, k, c, extra);
      IndexCounts(tree, depth, leaves, rootMax, nodeMax, g, k, c, extra, h);
      IndexBounds(tree, depth, leaves, rootMax, nodeMax, g, k, c, extra, Extents(tree, depth, leaves));
      FreeRest(free, t, SplitAt(tree, depth, g, k, c, extra));
      tree := SplitAt(tree, depth, g, k, c, extra);
      free, blocks := free[1..], blocks + 1;
    }

    method HalveLeaf(g: nat, c: nat)
      requires Valid() && free != [] && g < LBLK_LIMIT && 0 < depth && 0 < c < Count(tree, depth, leaves, 0, g)
      requires !Full(tree, depth, leaves, 1, g, rootMax, nodeMax)
      modifies this`tree, this`leaves, this`free, this`blocks
      ensures Valid() && Extents(tree, depth, leaves) == old(Extents(tree, depth, leaves))
      ensures free == old(free[1..]) && blocks == old(blocks) + 1
      ensures Count(tree, depth, leaves, 0, g) ==
              if old(LeafAt(leaves, Route(tree, depth, g)))[c].lblk <= g then old(Count(tree, depth, leaves, 0, g)) - c else c
      ensures Bounded(old(tree), depth, tree, depth, Extents(tree, depth, leaves), g)
    {
      var extra, b := free[0], Route(tree, depth, g);
      LeafWhole(tree, depth, leaves, free, rootMax, nodeMax, g, b, c);
      tree := InsertAt(tree, depth, g, leaves[b][c].lblk, extra);
      leaves := leaves[b := leaves[b][..c]][extra := leaves[b][c..]];
      free, blocks := free[1..], blocks + 1;
    }

    /** `splitting_at_eof`: the search for g ends at the last entry of every level up to the root. */
    predicate LastOfAll(g: nat, h: nat)
      reads this
      requires Valid() && h < depth
    {
      if h > 0 then AtEnd(tree, depth, g, depth - h + 1)
      else
        var s := LeafAt(leaves, Route(tree, depth, g));
        AtEnd(tree, depth, g, depth) && s != [] && s[|s| - 1].lblk <= g
    }

    /**
     It does exactly if the last extent of the file does not begin behind g; for a node above the leaves, if no
     entry does of the nodes on the way to it, and of itself.
     */
    lemma LastOfAllIs(g: nat, h: nat)
      requires Valid() && h < depth
      ensures var all := Extents(tree, depth, leaves); all != [] && (LastOfAll(g, 0) <==> all[|all| - 1].lblk <= g)
      ensures 0 < h ==> (LastOfAll(g, h) <==> forall j :: 0 <= j <= depth - h ==> NoneBehindAt(tree, depth, g, j))
    {
      EndIs(tree, depth, leaves, nodeMax, g);
      if h > 0 {
        AtEndIs(tree, depth, g, depth - h + 1, 0, LBLK_LIMIT);
      }
    }

    /** The part of `extent_node_split` below the root, once there is room in the parent. */
    method HalveNode(g: nat, h: nat, expand: bool) returns (err: Error)
      requires Valid() && g < LBLK_LIMIT && h < depth && !Full(tree, depth, leaves, h + 1, g, rootMax, nodeMax)
      requires expand ==> Full(tree, depth, leaves, h, g, rootMax, nodeMax)
      modifies this`tree, this`leaves, this`free, this`blocks
      ensures Valid() && Extents(tree, depth, leaves) == old(Extents(tree, depth, leaves))
      ensures err == if old(Count(tree, depth, leaves, h, g)) < 2 then CantSplit else if old(free) == [] then NoSpace else Ok
      ensures err != Ok ==> tree == old(tree) && leaves == old(leaves) && free == old(free) && blocks == old(blocks)
      ensures err == Ok ==> free == old(free[1..]) && blocks == old(blocks) + 1
      ensures err == Ok ==> SameBelow(old(tree), depth, old(leaves), tree, depth, leaves, g, h)
      ensures Bounded(old(tree), depth, tree, depth, Extents(tree, depth, leaves), g)
      ensures err == Ok ==>
                Parts(old(Count(tree, depth, leaves, h, g)), Count(tree, depth, leaves, h, g), expand && old(LastOfAll(g, h)))
    {
      var n := Count(tree, depth, leaves, h, g);
      NotEmpty(tree, depth, leaves, rootMax, nodeMax, h, g);
      var tocopy := if expand && LastOfAll(g, h) then 1 else n / 2;
      if tocopy == 0 {
        return CantSplit;
      }
      if free == [] {
        return NoSpace;
      }
      if h == 0 {
        HalveLeaf(g, n - tocopy);
      } else {
        if expand && LastOfAll(g, h) {
          EndAt(tree, depth, g, depth - h);
        }
        HalveIndex(g, h, n - tocopy);
      }
      return Ok;
    }

    method SplitAtRoot(g: nat, h: nat) returns (err: Error)
      requires Valid() && h == depth
      modifies this`depth, this`tree, this`leaves, this`free, this`blocks
      ensures Valid() && SplitTo(old(Now()), Now(), err, g, h, rootMax, nodeMax)
      ensures blocks + |free| == old(blocks + |free|)
    {
      CountBound(tree, depth, leaves, rootMax, nodeMax, depth, g);
      var n := if depth == 0 then |LeafAt(leaves, tree.block)| else |tree.keys|;
      if n == 0 || free == [] {
        RootStays(Now(), g, rootMax, nodeMax);
        return if n == 0 then NoCurrentNode else NoSpace;
      }
      MoveRoot(g);
      return Ok;
    }

    method SplitWithRoom(g: nat, h: nat, expand: bool) returns (err: Error)
      requires Valid() && g < LBLK_LIMIT && h < depth && !Full(tree, depth, leaves, h + 1, g, rootMax, nodeMax)
      requires expand ==> Full(tree, depth, leaves, h, g, rootMax, nodeMax)
      modifies this`tree, this`leaves, this`free, this`blocks
      ensures Valid() && SplitTo(old(Now()), Now(), err, g, h, rootMax, nodeMax)
      ensures depth == old(depth) && blocks + |free| == old(blocks + |free|)
    {
      ghost var t, d, l, f := tree, depth, leaves, free;
      NotEmpty(tree, depth, leaves, rootMax, nodeMax, h, g);
      CountBound(tree, depth, leaves, rootMax, nodeMax, h, g);
      err := HalveNode(g, h, expand);
      if err == Ok {
        GrewOne(t, d, l, f, tree, leaves, g, h, rootMax, nodeMax);
      }
    }

    /** The parent is full and is split first. */
    method SplitBelowFull(g: nat, h: nat, expand: bool) returns (err: Error)
      requires Valid() && g < LBLK_LIMIT && h < depth && Full(tree, depth, leaves, h + 1, g, rootMax, nodeMax)
      requires expand ==> Full(tree, depth, leaves, h, g, rootMax, nodeMax)
      modifies this`depth, this`tree, this`leaves, this`free, this`blocks
      ensures Valid() && SplitTo(old(Now()), Now(), err, g, h, rootMax, nodeMax)
      ensures blocks + |free| == old(blocks + |free|)
      decreases depth - h, 0
    {
      ghost var s := Now();
      err := NodeSplit(g, h + 1, expand);
      ghost var u := Now();
      if err == Ok {
        err := SplitWithRoom(g, h, expand);
        SplitBoth(s, u, Now(), err, g, h, rootMax, nodeMax);
      } else {
        RefusedAbove(s, u, err, g, h, rootMax, nodeMax);
      }
    }

    /** `extent_node_split` of the node at height h that a search for g goes through. */
    method NodeSplit(g: nat, h: nat, expand: bool) returns (err: Error)
      requires Valid() && g < LBLK_LIMIT && h <= depth && (expand ==> Full(tree, depth, leaves, h, g, rootMax, nodeMax))
      modifies this`depth, this`tree, this`leaves, this`free, this`blocks
      ensures Valid() && SplitTo(old(Now()), Now(), err, g, h, rootMax, nodeMax)
      ensures blocks + |free| == old(blocks + |free|)
      decreases depth - h, 1
    {
      if h == depth {
        err := SplitAtRoot(g, h);
      } else if Full(tree, depth, leaves, h + 1, g, rootMax, nodeMax) {
        err := SplitBelowFull(g, h, expand);
      } else {
        err := SplitWithRoom(g, h, expand);
      }
    }
  }
}
