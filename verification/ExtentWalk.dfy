/**
 Model of the walk over an extent tree by `ext2fs_extent_get` in libext2fs/extent.c: EXT2_EXTENT_ROOT, _NEXT, _PREV and
 _NEXT_LEAF.
 */
module ExtentWalk {
  import opened ExtentList
  import opened HashTree
  import opened HashSpans
  import opened ExtentTree

  /** What the walk reports: an entry of an index node, when it goes below it or comes back, or an extent. */
  datatype Item = Visit(block: nat, second: bool) | Piece(e: Extent)

  /** The extents from place i on, and then the rest. */
  function Pieces(s: seq<Extent>, i: nat, rest: seq<Item>): (r: seq<Item>)
    requires i <= |s|
    decreases |s| - i
  {
    if i == |s| then rest else [Piece(s[i])] + Pieces(s, i + 1, rest)
  }

  /** The whole walk: every entry comes before and behind all that is below it. Then comes the rest. */
  function Tour(t: Tree, d: nat, leaves: map<int, seq<Extent>>, rest: seq<Item>): (r: seq<Item>)
    requires Shape(t, d)
    decreases d, 0
  {
    if d == 0 then Pieces(LeafAt(leaves, t.block), 0, rest) else TourFrom(t, d, leaves, 0, rest)
  }

  function TourFrom(t: Tree, d: nat, leaves: map<int, seq<Extent>>, i: nat, rest: seq<Item>): (r: seq<Item>)
    requires Shape(t, d) && 0 < d && i <= |t.kids|
    decreases d - 1, 2 * (|t.kids| - i) + 1
  {
    if i == |t.kids| then rest
    else [Visit(t.kids[i].block, false)] + Tour(t.kids[i], d - 1, leaves, Behind(t, d, leaves, i, rest))
  }

  /** What comes after all that is below entry i. */
  function Behind(t: Tree, d: nat, leaves: map<int, seq<Extent>>, i: nat, rest: seq<Item>): (r: seq<Item>)
    requires Shape(t, d) && 0 < d && i < |t.kids|
    decreases d - 1, 2 * (|t.kids| - i)
  {
    [Visit(t.kids[i].block, true)] + TourFrom(t, d, leaves, i + 1, rest)
  }

  // ----- The extents of the walk -----

  function OnlyOf(x: Item): (s: seq<Extent>) {
    if x.Piece? then [x.e] else []
  }

  /** Only the extents. */
  function Only(r: seq<Item>): (s: seq<Extent>) {
    if r == [] then [] else OnlyOf(r[0]) + Only(r[1..])
  }

  lemma OnlyStep(x: Item, r: seq<Item>)
    ensures Only([x] + r) == OnlyOf(x) + Only(r)
  {
    assert ([x] + r)[1..] == r;
  }

  lemma {:induction false} OnlyPieces(s: seq<Extent>, i: nat, rest: seq<Item>)
    requires i <= |s|
    ensures Only(Pieces(s, i, rest)) == s[i..] + Only(rest)
    decreases |s| - i
  {
    if i < |s| {
      OnlyPieces(s, i + 1, rest);
      OnlyStep(Piece(s[i]), Pieces(s, i + 1, rest));
      assert [s[i]] + (s[i + 1..] + Only(rest)) == s[i..] + Only(rest);
    }
  }

  /** The extents of the walk are all extents in order. */
  lemma {:induction false} TourExtents(t: Tree, d: nat, leaves: map<int, seq<Extent>>, rest: seq<Item>, lo: nat, hi: nat)
    requires Shape(t, d)
    ensures Only(Tour(t, d, leaves, rest)) == Flat(Spans(t, d, lo, hi), leaves) + Only(rest)
    decreases d, 0
  {
    if d == 0 {
      OnlyPieces(LeafAt(leaves, t.block), 0, rest);
      OneFlat(Span(t.block, lo, hi), leaves);
    } else {
      TourFromExtents(t, d, leaves, 0, rest, lo, hi);
    }
  }

  lemma {:induction false} TourFromExtents(t: Tree, d: nat, leaves: map<int, seq<Extent>>, i: nat, rest: seq<Item>, lo: nat, hi: nat)
    requires Shape(t, d) && 0 < d && i <= |t.kids|
    ensures Only(TourFrom(t, d, leaves, i, rest)) == Flat(KidSpans(t, d, i, |t.kids|, lo, hi), leaves) + Only(rest)
    decreases d - 1, 2 * (|t.kids| - i) + 1
  {
    if i == |t.kids| {
      assert [] + Only(rest) == Only(rest);
      return;
    }
    var behind := Behind(t, d, leaves, i, rest);
    BehindExtents(t, d, leaves, i, rest, lo, hi);
    TourExtents(t.kids[i], d - 1, leaves, behind, Bound(t.keys, i, lo, hi), Bound(t.keys, i + 1, lo, hi));
    KidExtents(t, d, leaves, i, rest, behind, lo, hi);
  }

  lemma {:induction false} BehindExtents(t: Tree, d: nat, leaves: map<int, seq<Extent>>, i: nat, rest: seq<Item>, lo: nat, hi: nat)
    requires Shape(t, d) && 0 < d && i < |t.kids|
    ensures Only(Behind(t, d, leaves, i, rest)) == Flat(KidSpans(t, d, i + 1, |t.kids|, lo, hi), leaves) + Only(rest)
    decreases d - 1, 2 * (|t.kids| - i)
  {
    TourFromExtents(t, d, leaves, i + 1, rest, lo, hi);
    OnlyStep(Visit(t.kids[i].block, true), TourFrom(t, d, leaves, i + 1, rest));
  }

  lemma KidExtents(t: Tree, d: nat, leaves: map<int, seq<Extent>>, i: nat, rest: seq<Item>, behind: seq<Item>, lo: nat, hi: nat)
    requires Shape(t, d) && 0 < d && i < |t.kids| && behind == Behind(t, d, leaves, i, rest)
    requires Only(behind) == Flat(KidSpans(t, d, i + 1, |t.kids|, lo, hi), leaves) + Only(rest)
    requires Only(Tour(t.kids[i], d - 1, leaves, behind)) ==
             Flat(Spans(t.kids[i], d - 1, Bound(t.keys, i, lo, hi), Bound(t.keys, i + 1, lo, hi)), leaves) + Only(behind)
    ensures Only(TourFrom(t, d, leaves, i, rest)) == Flat(KidSpans(t, d, i, |t.kids|, lo, hi), leaves) + Only(rest)
  {
    OnlyStep(Visit(t.kids[i].block, false), Tour(t.kids[i], d - 1, leaves, behind));
    KidSpansFlat(t, d, leaves, i, lo, hi);
    Associate(Flat(Spans(t.kids[i], d - 1, Bound(t.keys, i, lo, hi), Bound(t.keys, i + 1, lo, hi)), leaves),
              Flat(KidSpans(t, d, i + 1, |t.kids|, lo, hi), leaves), Only(rest));
  }

  lemma KidSpansFlat(t: Tree, d: nat, leaves: map<int, seq<Extent>>, i: nat, lo: nat, hi: nat)
    requires Shape(t, d) && 0 < d && i < |t.kids|
    ensures Flat(KidSpans(t, d, i, |t.kids|, lo, hi), leaves) ==
            Flat(Spans(t.kids[i], d - 1, Bound(t.keys, i, lo, hi), Bound(t.keys, i + 1, lo, hi)), leaves) +
            Flat(KidSpans(t, d, i + 1, |t.kids|, lo, hi), leaves)
  {
    var kid, next := Spans(t.kids[i], d - 1, Bound(t.keys, i, lo, hi), Bound(t.keys, i + 1, lo, hi)), i + 1;
    KidSpansJoin(t, d, i, next, |t.kids|, lo, hi);
    KidSpansLast(t, d, i, next, lo, hi);
    assert [] + kid == kid;
    FlatConcat(kid, KidSpans(t, d, next, |t.kids|, lo, hi), leaves);
  }

  /** The walk over the tree of a file. */
  lemma TreeWalk(t: Tree, d: nat, leaves: map<int, seq<Extent>>, m: nat, n: nat)
    requires IsTree(t, d, leaves, m, n)
    ensures d > 0 ==> Filled(t, d, leaves)
    ensures Only(Tour(t, d, leaves, [])) == Extents(t, d, leaves)
    ensures forall b, second :: Times(Tour(t, d, leaves, []), Visit(b, second)) == Below(t, d, b)
  {
    TourExtents(t, d, leaves, [], 0, LBLK_LIMIT);
    forall b, second ensures Times(Tour(t, d, leaves, []), Visit(b, second)) == Below(t, d, b) {
      TourVisits(t, d, leaves, [], b, second);
    }
    if d > 0 {
      FitIsFilled(t, d, leaves, n, 0, LBLK_LIMIT);
    }
  }

  // ----- The entries of the walk -----

  function One(x: Item, y: Item): (n: nat) {
    if x == y then 1 else 0
  }

  function Times(r: seq<Item>, x: Item): (n: nat) {
    if r == [] then 0 else One(r[0], x) + Times(r[1..], x)
  }

  lemma TimesStep(y: Item, r: seq<Item>, x: Item)
    ensures Times([y] + r, x) == One(y, x) + Times(r, x)
  {
    assert ([y] + r)[1..] == r;
  }

  lemma {:induction false} TimesPieces(s: seq<Extent>, i: nat, rest: seq<Item>, x: Item)
    requires i <= |s| && x.Visit?
    ensures Times(Pieces(s, i, rest), x) == Times(rest, x)
    decreases |s| - i
  {
    if i < |s| {
      TimesPieces(s, i + 1, rest, x);
      TimesStep(Piece(s[i]), Pieces(s, i + 1, rest), x);
    }
  }

  /** How many nodes below t have the block b. */
  function Below(t: Tree, d: nat, b: nat): (n: nat)
    requires Shape(t, d)
    decreases d, 0
  {
    if d == 0 then 0 else BelowFrom(t, d, b, 0)
  }

  function BelowFrom(t: Tree, d: nat, b: nat, i: nat): (n: nat)
    requires Shape(t, d) && 0 < d && i <= |t.kids|
    decreases d - 1, |t.kids| - i + 1
  {
    if i == |t.kids| then 0
    else (if t.kids[i].block == b then 1 else 0) + Below(t.kids[i], d - 1, b) + BelowFrom(t, d, b, i + 1)
  }

  /** The walk comes to every node once, and once it goes back from it. */
  lemma {:induction false} TourVisits(t: Tree, d: nat, leaves: map<int, seq<Extent>>, rest: seq<Item>, b: nat, second: bool)
    requires Shape(t, d)
    ensures Times(Tour(t, d, leaves, rest), Visit(b, second)) == Below(t, d, b) + Times(rest, Visit(b, second))
    decreases d, 0
  {
    if d == 0 {
      TimesPieces(LeafAt(leaves, t.block), 0, rest, Visit(b, second));
    } else {
      TourFromVisits(t, d, leaves, 0, rest, b, second);
    }
  }

  lemma {:induction false} TourFromVisits(t: Tree, d: nat, leaves: map<int, seq<Extent>>, i: nat, rest: seq<Item>, b: nat, second: bool)
    requires Shape(t, d) && 0 < d && i <= |t.kids|
    ensures Times(TourFrom(t, d, leaves, i, rest), Visit(b, second)) == BelowFrom(t, d, b, i) + Times(rest, Visit(b, second))
    decreases d - 1, 2 * (|t.kids| - i) + 1
  {
    if i < |t.kids| {
      var kid, behind := t.kids[i], Behind(t, d, leaves, i, rest);
      BehindVisits(t, d, leaves, i, rest, b, second);
      TourVisits(kid, d - 1, leaves, behind, b, second);
      TimesStep(Visit(kid.block, false), Tour(kid, d - 1, leaves, behind), Visit(b, second));
    }
  }

  lemma {:induction false} BehindVisits(t: Tree, d: nat, leaves: map<int, seq<Extent>>, i: nat, rest: seq<Item>, b: nat, second: bool)
    requires Shape(t, d) && 0 < d && i < |t.kids|
    ensures Times(Behind(t, d, leaves, i, rest), Visit(b, second)) ==
            One(Visit(t.kids[i].block, true), Visit(b, second)) + BelowFrom(t, d, b, i + 1) + Times(rest, Visit(b, second))
    decreases d - 1, 2 * (|t.kids| - i)
  {
    TourFromVisits(t, d, leaves, i + 1, rest, b, second);
    TimesStep(Visit(t.kids[i].block, true), TourFrom(t, d, leaves, i + 1, rest), Visit(b, second));
  }

  // ----- Where the walk stands -----

  /** No leaf below the root is empty. */
  ghost predicate Filled(t: Tree, d: nat, leaves: map<int, seq<Extent>>)
    requires Shape(t, d)
    decreases d
  {
    if d == 0 then LeafAt(leaves, t.block) != [] else forall i :: 0 <= i < |t.kids| ==> Filled(t.kids[i], d - 1, leaves)
  }

  lemma {:induction false} FitIsFilled(t: Tree, d: nat, leaves: map<int, seq<Extent>>, max: nat, lo: nat, hi: nat)
    requires Shape(t, d) && AllFit(Spans(t, d, lo, hi), leaves, max)
    ensures Filled(t, d, leaves)
    decreases d
  {
    if d == 0 {
      assert FitsAt(Spans(t, d, lo, hi)[0], leaves, max);
    } else {
      forall i | 0 <= i < |t.kids| ensures Filled(t.kids[i], d - 1, leaves) {
        var kid := Spans(t.kids[i], d - 1, Bound(t.keys, i, lo, hi), Bound(t.keys, i + 1, lo, hi));
        KidSpansAround(t, d, i, lo, hi);
        FitAround(KidSpans(t, d, 0, i, lo, hi), kid, KidSpans(t, d, i + 1, |t.kids|, lo, hi), leaves, max);
        FitIsFilled(t.kids[i], d - 1, leaves, max, Bound(t.keys, i, lo, hi), Bound(t.keys, i + 1, lo, hi));
      }
    }
  }

  /** An entry above the current one, and whether what is below it counts as visited. */
  datatype Above = Above(i: nat, seen: bool)

  /** The places taken from the root on are places of entries. */
  predicate OnPath(t: Tree, d: nat, up: seq<Above>)
    requires Shape(t, d)
    decreases |up|, 0
  {
    up == [] ||
    var n := |up| - 1;
    n < d && OnPath(t, d, up[..n]) && up[n].i < |NodeAt(t, d, up[..n]).kids|
  }

  /** The node they lead to. */
  function NodeAt(t: Tree, d: nat, up: seq<Above>): (x: Tree)
    requires Shape(t, d) && OnPath(t, d, up)
    ensures |up| <= d && Shape(x, d - |up|)
    decreases |up|, 1
  {
    if up == [] then t else var n := |up| - 1; NodeAt(t, d, up[..n]).kids[up[n].i]
  }

  lemma PathDown(t: Tree, d: nat, up: seq<Above>, a: Above)
    requires Shape(t, d) && OnPath(t, d, up) && |up| < d && a.i < |NodeAt(t, d, up).kids|
    ensures OnPath(t, d, up + [a]) && NodeAt(t, d, up + [a]) == NodeAt(t, d, up).kids[a.i]
  {
    assert (up + [a])[..|up|] == up;
  }

  function Size(x: Tree, d: nat, leaves: map<int, seq<Extent>>): (n: nat)
    requires Shape(x, d)
  {
    if d == 0 then |LeafAt(leaves, x.block)| else |x.kids|
  }

  /** What comes in the node itself and below, after entry i, and then the rest. */
  function Here(x: Tree, d: nat, leaves: map<int, seq<Extent>>, i: nat, second: bool, rest: seq<Item>): (r: seq<Item>)
    requires Shape(x, d) && i < Size(x, d, leaves)
  {
    if d == 0 then Pieces(LeafAt(leaves, x.block), i + 1, rest)
    else if second then TourFrom(x, d, leaves, i + 1, rest)
    else Tour(x.kids[i], d - 1, leaves, Behind(x, d, leaves, i, rest))
  }

  function ItemAt(x: Tree, d: nat, leaves: map<int, seq<Extent>>, i: nat, second: bool): (e: Item)
    requires Shape(x, d) && i < Size(x, d, leaves)
  {
    if d == 0 then Piece(LeafAt(leaves, x.block)[i]) else Visit(x.kids[i].block, second)
  }

  /**
   All that comes after a node is done with: the entry above it is reported again, and unless what is below it counts as
   visited, so is all of that.
   */
  function After(t: Tree, d: nat, leaves: map<int, seq<Extent>>, up: seq<Above>): (r: seq<Item>)
    requires Shape(t, d) && OnPath(t, d, up)
    decreases |up|
  {
    if up == [] then []
    else
      var n := |up| - 1;
      var x, a := NodeAt(t, d, up[..n]), up[n];
      [Visit(x.kids[a.i].block, a.seen)] + Here(x, d - n, leaves, a.i, a.seen, After(t, d, leaves, up[..n]))
  }

  lemma TourStarts(x: Tree, d: nat, leaves: map<int, seq<Extent>>, rest: seq<Item>)
    requires Shape(x, d) && 0 < Size(x, d, leaves)
    ensures Tour(x, d, leaves, rest) == [ItemAt(x, d, leaves, 0, false)] + Here(x, d, leaves, 0, false, rest)
  {
  }

  lemma SiblingHere(x: Tree, d: nat, leaves: map<int, seq<Extent>>, i: nat, rest: seq<Item>)
    requires Shape(x, d) && i + 1 < Size(x, d, leaves)
    ensures Here(x, d, leaves, i, 0 < d, rest) ==
            [ItemAt(x, d, leaves, i + 1, false)] + Here(x, d, leaves, i + 1, false, rest)
  {
  }

  lemma LastHere(x: Tree, d: nat, leaves: map<int, seq<Extent>>, i: nat, rest: seq<Item>)
    requires Shape(x, d) && i + 1 == Size(x, d, leaves)
    ensures Here(x, d, leaves, i, 0 < d, rest) == rest
  {
  }

  lemma {:induction false} FilledAt(t: Tree, d: nat, leaves: map<int, seq<Extent>>, up: seq<Above>)
    requires Shape(t, d) && OnPath(t, d, up) && Filled(t, d, leaves)
    ensures Filled(NodeAt(t, d, up), d - |up|, leaves)
    decreases |up|
  {
    if up != [] {
      FilledAt(t, d, leaves, up[..|up| - 1]);
    }
  }

  /** A node below the root has an entry. */
  lemma KidHasEntries(t: Tree, d: nat, leaves: map<int, seq<Extent>>, up: seq<Above>)
    requires Shape(t, d) && OnPath(t, d, up) && 0 < d && Filled(t, d, leaves)
    ensures 0 < Size(NodeAt(t, d, up), d - |up|, leaves)
  {
    FilledAt(t, d, leaves, up);
  }

  // ----- One step -----

  /** The places of the entries above, that of the current entry, and whether what is below it has been visited. */
  datatype Place = Place(up: seq<Above>, i: nat, second: bool)

  predicate Stands(t: Tree, d: nat, leaves: map<int, seq<Extent>>, p: Place)
    requires Shape(t, d)
  {
    OnPath(t, d, p.up) && p.i < Size(NodeAt(t, d, p.up), d - |p.up|, leaves) && (|p.up| == d ==> !p.second)
  }

  /** All that is still to come. */
  function Rest(t: Tree, d: nat, leaves: map<int, seq<Extent>>, p: Place): (r: seq<Item>)
    requires Shape(t, d) && Stands(t, d, leaves, p)
  {
    Here(NodeAt(t, d, p.up), d - |p.up|, leaves, p.i, p.second, After(t, d, leaves, p.up))
  }

  function Reported(t: Tree, d: nat, leaves: map<int, seq<Extent>>, p: Place): (x: Item)
    requires Shape(t, d) && Stands(t, d, leaves, p)
  {
    ItemAt(NodeAt(t, d, p.up), d - |p.up|, leaves, p.i, p.second)
  }

  /** The place that EXT2_EXTENT_NEXT leads to. */
  function Following(t: Tree, d: nat, leaves: map<int, seq<Extent>>, p: Place): (q: Option<Place>)
    requires Shape(t, d) && Stands(t, d, leaves, p)
  {
    var Place(up, i, second) := p;
    var n := |up|;
    if n < d && !second then Some(Place(up + [Above(i, true)], 0, false))
    else if i + 1 < Size(NodeAt(t, d, up), d - n, leaves) then Some(Place(up, i + 1, false))
    else if n > 0 then Some(Place(up[..n - 1], up[n - 1].i, up[n - 1].seen))
    else None
  }

  /** From the place p a step leads to q: what is to come at p is the item at q, and what is to come there. */
  ghost predicate Steps(t: Tree, d: nat, leaves: map<int, seq<Extent>>, p: Place, q: Place) {
    && Shape(t, d) && Stands(t, d, leaves, p) && Stands(t, d, leaves, q) && Following(t, d, leaves, p) == Some(q)
    && Rest(t, d, leaves, p) == [Reported(t, d, leaves, q)] + Rest(t, d, leaves, q)
  }

  lemma AfterDown(t: Tree, d: nat, leaves: map<int, seq<Extent>>, up: seq<Above>, a: Above, r: nat)
    requires Shape(t, d) && OnPath(t, d, up) && |up| < d && a.i < |NodeAt(t, d, up).kids| && r == d - |up|
    requires OnPath(t, d, up + [a]) && Shape(NodeAt(t, d, up), r)
    ensures After(t, d, leaves, up + [a]) ==
            [Visit(NodeAt(t, d, up).kids[a.i].block, a.seen)] + Here(NodeAt(t, d, up), r, leaves, a.i, a.seen, After(t, d, leaves, up))
  {
    assert (up + [a])[..|up|] == up;
  }

  lemma DownRest(t: Tree, d: nat, leaves: map<int, seq<Extent>>, up: seq<Above>, i: nat, r: nat, p: Place, q: Place)
    requires Shape(t, d) && Stands(t, d, leaves, p) && Stands(t, d, leaves, q) && r == d - |up| && 0 < r
    requires p == Place(up, i, false) && q == Place(up + [Above(i, true)], 0, false)
    ensures Rest(t, d, leaves, p) == [Reported(t, d, leaves, q)] + Rest(t, d, leaves, q)
  {
    var a := Above(i, true);
    PathDown(t, d, up, a);
    AfterDown(t, d, leaves, up, a, r);
    TourStarts(NodeAt(t, d, up + [a]), r - 1, leaves, After(t, d, leaves, up + [a]));
  }

  lemma DownSteps(t: Tree, d: nat, leaves: map<int, seq<Extent>>, up: seq<Above>, i: nat)
    requires Shape(t, d) && Stands(t, d, leaves, Place(up, i, false)) && |up| < d && Filled(t, d, leaves)
    ensures Steps(t, d, leaves, Place(up, i, false), Place(up + [Above(i, true)], 0, false))
  {
    PathDown(t, d, up, Above(i, true));
    KidHasEntries(t, d, leaves, up + [Above(i, true)]);
    DownRest(t, d, leaves, up, i, d - |up|, Place(up, i, false), Place(up + [Above(i, true)], 0, false));
  }

  lemma SiblingRest(t: Tree, d: nat, leaves: map<int, seq<Extent>>, up: seq<Above>, i: nat, r: nat, p: Place, q: Place)
    requires Shape(t, d) && Stands(t, d, leaves, p) && Stands(t, d, leaves, q) && r == d - |up|
    requires p == Place(up, i, 0 < r) && q == Place(up, i + 1, false)
    ensures Rest(t, d, leaves, p) == [Reported(t, d, leaves, q)] + Rest(t, d, leaves, q)
  {
    SiblingHere(NodeAt(t, d, up), r, leaves, i, After(t, d, leaves, up));
  }

  lemma SiblingFollows(t: Tree, d: nat, leaves: map<int, seq<Extent>>, up: seq<Above>, i: nat)
    requires Shape(t, d) && Stands(t, d, leaves, Place(up, i, |up| < d)) && i + 1 < Size(NodeAt(t, d, up), d - |up|, leaves)
    ensures Following(t, d, leaves, Place(up, i, |up| < d)) == Some(Place(up, i + 1, false))
  {
  }

  lemma SiblingSteps(t: Tree, d: nat, leaves: map<int, seq<Extent>>, up: seq<Above>, i: nat)
    requires Shape(t, d) && Stands(t, d, leaves, Place(up, i, |up| < d)) && i + 1 < Size(NodeAt(t, d, up), d - |up|, leaves)
    ensures Steps(t, d, leaves, Place(up, i, |up| < d), Place(up, i + 1, false))
  {
    SiblingFollows(t, d, leaves, up, i);
    SiblingRest(t, d, leaves, up, i, d - |up|, Place(up, i, |up| < d), Place(up, i + 1, false));
  }

  lemma UpRest(t: Tree, d: nat, leaves: map<int, seq<Extent>>, up: seq<Above>, a: Above, last: nat, r: nat, p: Place, q: Place)
    requires Shape(t, d) && Stands(t, d, leaves, p) && Stands(t, d, leaves, q) && r == d - |up| && 0 < r
    requires p == Place(up + [a], last, 0 < r - 1) && q == Place(up, a.i, a.seen)
    requires last + 1 == Size(NodeAt(t, d, up + [a]), r - 1, leaves)
    ensures Rest(t, d, leaves, p) == [Reported(t, d, leaves, q)] + Rest(t, d, leaves, q)
  {
    AfterDown(t, d, leaves, up, a, r);
    LastHere(NodeAt(t, d, up + [a]), r - 1, leaves, last, After(t, d, leaves, up + [a]));
  }

  lemma UpFollows(t: Tree, d: nat, leaves: map<int, seq<Extent>>, up: seq<Above>, a: Above, last: nat, p: Place)
    requires Shape(t, d) && Stands(t, d, leaves, p) && |up| < d
    requires p == Place(up + [a], last, |up| + 1 < d) && last + 1 == Size(NodeAt(t, d, up + [a]), d - |up| - 1, leaves)
    ensures Following(t, d, leaves, p) == Some(Place(up, a.i, a.seen))
  {
    assert (up + [a])[..|up|] == up;
  }

  lemma UpSteps(t: Tree, d: nat, leaves: map<int, seq<Extent>>, up: seq<Above>, a: Above, last: nat)
    requires Shape(t, d) && Stands(t, d, leaves, Place(up, a.i, false)) && |up| < d
    requires last + 1 == Size(NodeAt(t, d, up).kids[a.i], d - |up| - 1, leaves)
    ensures Steps(t, d, leaves, Place(up + [a], last, |up| + 1 < d), Place(up, a.i, a.seen))
  {
    PathDown(t, d, up, a);
    var p, q := Place(up + [a], last, |up| + 1 < d), Place(up, a.i, a.seen);
    UpRest(t, d, leaves, up, a, last, d - |up|, p, q);
    UpFollows(t, d, leaves, up, a, last, p);
  }

  /** The last place of the node below an entry. */
  function LastBelow(t: Tree, d: nat, leaves: map<int, seq<Extent>>, up: seq<Above>, i: nat): (q: Place)
    requires Shape(t, d) && Stands(t, d, leaves, Place(up, i, true)) && |up| < d && Filled(t, d, leaves)
    ensures Steps(t, d, leaves, q, Place(up, i, true))
  {
    var a := Above(i, true);
    PathDown(t, d, up, a);
    KidHasEntries(t, d, leaves, up + [a]);
    var last := Size(NodeAt(t, d, up).kids[i], d - |up| - 1, leaves) - 1;
    UpSteps(t, d, leaves, up, a, last);
    Place(up + [a], last, |up| + 1 < d)
  }

  /** The place as EXT2_EXTENT_NEXT would have left it if it had come down to it. */
  function ComeDown(p: Place): (q: Place) {
    var n := |p.up|;
    if n == 0 || p.second || p.i > 0 then p else p.(up := p.up[..n - 1] + [Above(p.up[n - 1].i, true)])
  }

  /** The entry above a first place. */
  function EntryAbove(t: Tree, d: nat, leaves: map<int, seq<Extent>>, up: seq<Above>): (q: Place)
    requires Shape(t, d) && Stands(t, d, leaves, Place(up, 0, false)) && up != [] && Filled(t, d, leaves)
    ensures Steps(t, d, leaves, q, ComeDown(Place(up, 0, false)))
  {
    var n := |up| - 1;
    DownSteps(t, d, leaves, up[..n], up[n].i);
    Place(up[..n], up[n].i, false)
  }

  /** The entry above a last place, once more. */
  function EntryAgain(t: Tree, d: nat, leaves: map<int, seq<Extent>>, up: seq<Above>, i: nat): (q: Place)
    requires Shape(t, d) && Stands(t, d, leaves, Place(up, i, |up| < d)) && up != []
    requires i + 1 == Size(NodeAt(t, d, up), d - |up|, leaves)
    ensures Steps(t, d, leaves, Place(up, i, |up| < d), q)
  {
    var n := |up| - 1;
    assert up[..n] + [up[n]] == up;
    UpSteps(t, d, leaves, up[..n], up[n], i);
    Place(up[..n], up[n].i, up[n].seen)
  }

  lemma LastOfTour(t: Tree, d: nat, leaves: map<int, seq<Extent>>, i: nat)
    requires Shape(t, d) && Stands(t, d, leaves, Place([], i, 0 < d)) && i + 1 == Size(t, d, leaves)
    ensures Rest(t, d, leaves, Place([], i, 0 < d)) == [] && Following(t, d, leaves, Place([], i, 0 < d)) == None
  {
    LastHere(t, d, leaves, i, []);
  }

  lemma FirstOfTour(t: Tree, d: nat, leaves: map<int, seq<Extent>>)
    requires Shape(t, d) && 0 < Size(t, d, leaves)
    ensures Stands(t, d, leaves, Place([], 0, false))
    ensures Tour(t, d, leaves, []) == [Reported(t, d, leaves, Place([], 0, false))] + Rest(t, d, leaves, Place([], 0, false))
  {
    TourStarts(t, d, leaves, []);
  }

  // ----- Going on from any place -----

  predicate AllSeen(up: seq<Above>) {
    forall k :: 0 <= k < |up| ==> up[k].seen
  }

  lemma {:induction false} PiecesFrom(s: seq<Extent>, i: nat, rest: seq<Item>) returns (front: seq<Item>)
    requires i <= |s|
    ensures Pieces(s, 0, rest) == front + Pieces(s, i, rest)
  {
    if i == 0 {
      front := [];
      assert [] + Pieces(s, 0, rest) == Pieces(s, 0, rest);
    } else {
      front := PiecesFrom(s, i - 1, rest);
      Associate(front, [Piece(s[i - 1])], Pieces(s, i, rest));
      front := front + [Piece(s[i - 1])];
    }
  }

  lemma {:induction false} TourFromEntry(x: Tree, d: nat, leaves: map<int, seq<Extent>>, i: nat, rest: seq<Item>)
    returns (front: seq<Item>)
    requires Shape(x, d) && 0 < d && i <= |x.kids|
    ensures TourFrom(x, d, leaves, 0, rest) == front + TourFrom(x, d, leaves, i, rest)
  {
    if i == 0 {
      front := [];
      assert [] + TourFrom(x, d, leaves, 0, rest) == TourFrom(x, d, leaves, 0, rest);
    } else {
      var j := i - 1;
      front := TourFromEntry(x, d, leaves, j, rest);
      var b, below, rest' := x.kids[j].block, Tour(x.kids[j], d - 1, leaves, []), TourFrom(x, d, leaves, i, rest);
      TourThen(x.kids[j], d - 1, leaves, Behind(x, d, leaves, j, rest));
      Gathered(front, [Visit(b, false)], below, [Visit(b, true)], rest');
      front := front + [Visit(b, false)] + below + [Visit(b, true)];
    }
  }

  lemma Gathered<T>(front: seq<T>, a: seq<T>, below: seq<T>, b: seq<T>, rest: seq<T>)
    ensures front + (a + (below + (b + rest))) == (front + a + below + b) + rest
  {
  }

  lemma {:induction false} PiecesThen(s: seq<Extent>, i: nat, rest: seq<Item>)
    requires i <= |s|
    ensures Pieces(s, i, rest) == Pieces(s, i, []) + rest
    decreases |s| - i
  {
    if i < |s| {
      PiecesThen(s, i + 1, rest);
      Associate([Piece(s[i])], Pieces(s, i + 1, []), rest);
    }
  }

  /** The walk, and then the rest. */
  lemma {:induction false} TourThen(t: Tree, d: nat, leaves: map<int, seq<Extent>>, rest: seq<Item>)
    requires Shape(t, d)
    ensures Tour(t, d, leaves, rest) == Tour(t, d, leaves, []) + rest
    decreases d, 0
  {
    if d == 0 {
      PiecesThen(LeafAt(leaves, t.block), 0, rest);
    } else {
      TourFromThen(t, d, leaves, 0, rest);
    }
  }

  lemma {:induction false} TourFromThen(t: Tree, d: nat, leaves: map<int, seq<Extent>>, i: nat, rest: seq<Item>)
    requires Shape(t, d) && 0 < d && i <= |t.kids|
    ensures TourFrom(t, d, leaves, i, rest) == TourFrom(t, d, leaves, i, []) + rest
    decreases d - 1, 2 * (|t.kids| - i) + 1
  {
    if i < |t.kids| {
      var kid, v := t.kids[i], [Visit(t.kids[i].block, false)];
      BehindThen(t, d, leaves, i, rest);
      TourThen(kid, d - 1, leaves, Behind(t, d, leaves, i, rest));
      TourThen(kid, d - 1, leaves, Behind(t, d, leaves, i, []));
      var below, behind := Tour(kid, d - 1, leaves, []), Behind(t, d, leaves, i, []);
      assert v + (below + (behind + rest)) == (v + (below + behind)) + rest;
    }
  }

  lemma {:induction false} BehindThen(t: Tree, d: nat, leaves: map<int, seq<Extent>>, i: nat, rest: seq<Item>)
    requires Shape(t, d) && 0 < d && i < |t.kids|
    ensures Behind(t, d, leaves, i, rest) == Behind(t, d, leaves, i, []) + rest
    decreases d - 1, 2 * (|t.kids| - i)
  {
    TourFromThen(t, d, leaves, i + 1, rest);
    Associate([Visit(t.kids[i].block, true)], TourFrom(t, d, leaves, i + 1, []), rest);
  }

  /** From an entry on that is met for the first time. */
  lemma FromHere(x: Tree, d: nat, leaves: map<int, seq<Extent>>, i: nat, rest: seq<Item>) returns (front: seq<Item>)
    requires Shape(x, d) && i < Size(x, d, leaves)
    ensures Tour(x, d, leaves, rest) == front + ([ItemAt(x, d, leaves, i, false)] + Here(x, d, leaves, i, false, rest))
  {
    if d == 0 {
      front := PiecesFrom(LeafAt(leaves, x.block), i, rest);
    } else {
      front := TourFromEntry(x, d, leaves, i, rest);
    }
  }

  lemma {:induction false} OnlyConcat(a: seq<Item>, b: seq<Item>)
    ensures Only(a + b) == Only(a) + Only(b)
  {
    if a == [] {
      assert a + b == b;
    } else {
      assert (a + b)[1..] == a[1..] + b && (a + b)[0] == a[0];
      OnlyConcat(a[1..], b);
      Associate(OnlyOf(a[0]), Only(a[1..]), Only(b));
    }
  }

  lemma AfterSeen(t: Tree, d: nat, leaves: map<int, seq<Extent>>, up: seq<Above>, n: nat, r: nat)
    requires Shape(t, d) && OnPath(t, d, up) && |up| == n + 1 && up[n].seen && n < d && r == d - n && Shape(NodeAt(t, d, up[..n]), r)
    ensures up[n].i < |NodeAt(t, d, up[..n]).kids| && NodeAt(t, d, up) == NodeAt(t, d, up[..n]).kids[up[n].i]
    ensures After(t, d, leaves, up) == Behind(NodeAt(t, d, up[..n]), r, leaves, up[n].i, After(t, d, leaves, up[..n]))
  {
  }

  /** With all entries above it visited, a node is walked over in its place of the whole walk. */
  lemma {:induction false} SeenPath(t: Tree, d: nat, leaves: map<int, seq<Extent>>, up: seq<Above>) returns (front: seq<Item>)
    requires Shape(t, d) && OnPath(t, d, up) && AllSeen(up)
    ensures Tour(t, d, leaves, []) == front + Tour(NodeAt(t, d, up), d - |up|, leaves, After(t, d, leaves, up))
    decreases |up|
  {
    if up == [] {
      front := [];
      assert [] + Tour(t, d, leaves, []) == Tour(t, d, leaves, []);
    } else {
      var n := |up| - 1;
      var r, x, i, rest := d - n, NodeAt(t, d, up[..n]), up[n].i, After(t, d, leaves, up[..n]);
      var f := SeenPath(t, d, leaves, up[..n]);
      AfterSeen(t, d, leaves, up, n, r);
      var f' := TourFromEntry(x, r, leaves, i, rest);
      front := f + f' + [Visit(x.kids[i].block, false)];
      Parted(f, f', [Visit(x.kids[i].block, false)], Tour(x.kids[i], r - 1, leaves, After(t, d, leaves, up)));
    }
  }

  lemma Parted<T>(a: seq<T>, b: seq<T>, c: seq<T>, rest: seq<T>)
    ensures a + (b + (c + rest)) == (a + b + c) + rest
  {
  }

  lemma HereThen(x: Tree, d: nat, leaves: map<int, seq<Extent>>, i: nat, second: bool, rest: seq<Item>)
    requires Shape(x, d) && i < Size(x, d, leaves)
    ensures Here(x, d, leaves, i, second, rest) == Here(x, d, leaves, i, second, []) + rest
  {
    if d == 0 {
      PiecesThen(LeafAt(leaves, x.block), i + 1, rest);
    } else if second {
      TourFromThen(x, d, leaves, i + 1, rest);
    } else {
      TourThen(x.kids[i], d - 1, leaves, Behind(x, d, leaves, i, rest));
      TourThen(x.kids[i], d - 1, leaves, Behind(x, d, leaves, i, []));
      BehindThen(x, d, leaves, i, rest);
      Associate(Tour(x.kids[i], d - 1, leaves, []), Behind(x, d, leaves, i, []), rest);
    }
  }

  lemma {:induction false} HasExtent(t: Tree, d: nat, leaves: map<int, seq<Extent>>, rest: seq<Item>)
    requires Shape(t, d) && Filled(t, d, leaves)
    ensures |Only(Tour(t, d, leaves, rest))| > |Only(rest)|
    decreases d
  {
    TourExtents(t, d, leaves, rest, 0, LBLK_LIMIT);
    TourExtents(t, d, leaves, [], 0, LBLK_LIMIT);
    if d == 0 {
      OnlyPieces(LeafAt(leaves, t.block), 0, rest);
    } else {
      HasExtent(t.kids[0], d - 1, leaves, Behind(t, d, leaves, 0, []));
      OnlyStep(Visit(t.kids[0].block, false), Tour(t.kids[0], d - 1, leaves, Behind(t, d, leaves, 0, [])));
    }
  }

  function Marked(up: seq<Above>): (v: seq<Above>) {
    seq(|up|, k requires 0 <= k < |up| => Above(up[k].i, true))
  }

  lemma {:induction false} MarkedPath(t: Tree, d: nat, up: seq<Above>)
    requires Shape(t, d) && OnPath(t, d, up)
    ensures OnPath(t, d, Marked(up)) && NodeAt(t, d, Marked(up)) == NodeAt(t, d, up)
    decreases |up|
  {
    if up != [] {
      var n := |up| - 1;
      MarkedPath(t, d, up[..n]);
      assert Marked(up)[..n] == Marked(up[..n]);
    }
  }

  /** What comes again below an entry that does not count as visited. */
  lemma UnseenLonger(x: Tree, r: nat, leaves: map<int, seq<Extent>>, i: nat, rest: seq<Item>, rest': seq<Item>)
    requires Shape(x, r) && 0 < r && i < |x.kids| && Filled(x, r, leaves) && |Only(rest)| >= |Only(rest')|
    ensures |Only(Here(x, r, leaves, i, false, rest))| > |Only(Here(x, r, leaves, i, true, rest'))|
  {
    HasExtent(x.kids[i], r - 1, leaves, Behind(x, r, leaves, i, rest));
    OnlyStep(Visit(x.kids[i].block, true), TourFrom(x, r, leaves, i + 1, rest));
    SameLonger(x, r, leaves, i, true, rest, rest');
  }

  lemma SameLonger(x: Tree, r: nat, leaves: map<int, seq<Extent>>, i: nat, second: bool, rest: seq<Item>, rest': seq<Item>)
    requires Shape(x, r) && i < Size(x, r, leaves)
    ensures |Only(Here(x, r, leaves, i, second, rest))| - |Only(rest)| == |Only(Here(x, r, leaves, i, second, rest'))| - |Only(rest')|
  {
    HereThen(x, r, leaves, i, second, rest);
    HereThen(x, r, leaves, i, second, rest');
    OnlyConcat(Here(x, r, leaves, i, second, []), rest);
    OnlyConcat(Here(x, r, leaves, i, second, []), rest');
  }

  /** As many extents come after a node as if all entries above counted as visited, or more. */
  ghost predicate Repeats(t: Tree, d: nat, leaves: map<int, seq<Extent>>, up: seq<Above>, v: seq<Above>, again: bool) {
    && Shape(t, d) && OnPath(t, d, up) && OnPath(t, d, v) && NodeAt(t, d, v) == NodeAt(t, d, up) && |v| == |up|
    && |Only(After(t, d, leaves, up))| >= |Only(After(t, d, leaves, v))|
    && (again <==> |Only(After(t, d, leaves, up))| > |Only(After(t, d, leaves, v))|)
  }

  lemma RepeatsNext(t: Tree, d: nat, leaves: map<int, seq<Extent>>, up: seq<Above>, v: seq<Above>, again: bool, a: Above, r: nat)
    requires Repeats(t, d, leaves, up, v, again) && OnPath(t, d, up + [a]) && |up| < d && r == d - |up| && Filled(t, d, leaves)
    ensures Repeats(t, d, leaves, up + [a], v + [Above(a.i, true)], again || !a.seen)
  {
    RepeatsPath(t, d, leaves, up, v, again, a, r);
    RepeatsCount(t, d, leaves, up, v, again, a, r);
  }

  lemma RepeatsPath(t: Tree, d: nat, leaves: map<int, seq<Extent>>, up: seq<Above>, v: seq<Above>, again: bool, a: Above, r: nat)
    requires Repeats(t, d, leaves, up, v, again) && OnPath(t, d, up + [a]) && |up| < d && r == d - |up|
    ensures Shape(NodeAt(t, d, up), r) && OnPath(t, d, up) && a.i < |NodeAt(t, d, up).kids|
    ensures OnPath(t, d, v + [Above(a.i, true)]) && NodeAt(t, d, v + [Above(a.i, true)]) == NodeAt(t, d, up + [a])
  {
    assert (up + [a])[..|up|] == up;
    PathDown(t, d, up, a);
    PathDown(t, d, v, Above(a.i, true));
  }

  lemma RepeatsCount(t: Tree, d: nat, leaves: map<int, seq<Extent>>, up: seq<Above>, v: seq<Above>, again: bool, a: Above, r: nat)
    requires Repeats(t, d, leaves, up, v, again) && OnPath(t, d, up + [a]) && |up| < d && r == d - |up| && Filled(t, d, leaves)
    requires Shape(NodeAt(t, d, up), r) && a.i < |NodeAt(t, d, up).kids| && OnPath(t, d, v + [Above(a.i, true)])
    ensures var m, n := |Only(After(t, d, leaves, up + [a]))|, |Only(After(t, d, leaves, v + [Above(a.i, true)]))|;
            m >= n && (again || !a.seen <==> m > n)
  {
    FilledAt(t, d, leaves, up);
    AfterOne(t, d, leaves, up, a, r);
    AfterOne(t, d, leaves, v, Above(a.i, true), r);
    OneLonger(NodeAt(t, d, up), r, leaves, a, After(t, d, leaves, up), After(t, d, leaves, v));
  }

  /** Extents come again exactly if some entry above does not count as visited. */
  lemma {:induction false} AfterLonger(t: Tree, d: nat, leaves: map<int, seq<Extent>>, up: seq<Above>)
    requires Shape(t, d) && OnPath(t, d, up) && (up != [] ==> Filled(t, d, leaves))
    ensures Repeats(t, d, leaves, up, Marked(up), !AllSeen(up))
    decreases |up|
  {
    if up == [] {
      assert Marked(up) == up;
    } else {
      var up', a := up[..|up| - 1], up[|up| - 1];
      AfterLonger(t, d, leaves, up');
      LastMarked(up, up', a);
      RepeatsNext(t, d, leaves, up', Marked(up'), !AllSeen(up'), a, d - |up'|);
    }
  }

  lemma LastMarked(up: seq<Above>, up': seq<Above>, a: Above)
    requires up != [] && up' == up[..|up| - 1] && a == up[|up| - 1]
    ensures up' + [a] == up && Marked(up') + [Above(a.i, true)] == Marked(up)
    ensures !AllSeen(up) <==> !AllSeen(up') || !a.seen
  {
    forall k | 0 <= k < |up'| ensures up'[k] == up[k] {
    }
    if AllSeen(up') && a.seen {
      forall k | 0 <= k < |up| ensures up[k].seen {
        assert k < |up'| ==> up'[k].seen;
      }
    }
  }

  lemma AfterOne(t: Tree, d: nat, leaves: map<int, seq<Extent>>, up: seq<Above>, a: Above, r: nat)
    requires Shape(t, d) && OnPath(t, d, up) && OnPath(t, d, up + [a]) && |up| < d && r == d - |up| && Shape(NodeAt(t, d, up), r)
    ensures a.i < |NodeAt(t, d, up).kids|
    ensures |Only(After(t, d, leaves, up + [a]))| == |Only(Here(NodeAt(t, d, up), r, leaves, a.i, a.seen, After(t, d, leaves, up)))|
  {
    var x, rest := NodeAt(t, d, up), After(t, d, leaves, up);
    assert (up + [a])[..|up|] == up;
    AfterDown(t, d, leaves, up, a, r);
    OnlyStep(Visit(x.kids[a.i].block, a.seen), Here(x, r, leaves, a.i, a.seen, rest));
  }

  lemma OneLonger(x: Tree, r: nat, leaves: map<int, seq<Extent>>, a: Above, rest: seq<Item>, rest': seq<Item>)
    requires Shape(x, r) && 0 < r && a.i < |x.kids| && Filled(x, r, leaves) && |Only(rest)| >= |Only(rest')|
    ensures var u, v := |Only(Here(x, r, leaves, a.i, a.seen, rest))|, |Only(Here(x, r, leaves, a.i, true, rest'))|;
            u >= v && (u == v <==> |Only(rest)| == |Only(rest')| && a.seen)
  {
    if a.seen {
      SameLonger(x, r, leaves, a.i, true, rest, rest');
    } else {
      UnseenLonger(x, r, leaves, a.i, rest, rest');
    }
  }

  /**
   A place at a leaf: the extents of the walk from there on are those behind the current one in the list of all extents,
   and no others, exactly if all entries above count as visited.
   */
  lemma GoesOnIff(t: Tree, d: nat, leaves: map<int, seq<Extent>>, p: Place) returns (front: seq<Extent>, behind: seq<Extent>)
    requires Shape(t, d) && Stands(t, d, leaves, p) && |p.up| == d && (d > 0 ==> Filled(t, d, leaves))
    ensures Only(Tour(t, d, leaves, [])) == front + (OnlyOf(Reported(t, d, leaves, p)) + behind)
    ensures Only(Rest(t, d, leaves, p)) == behind <==> AllSeen(p.up)
    ensures |Only(Rest(t, d, leaves, p))| >= |behind|
  {
    var q := p.(up := Marked(p.up));
    MarkedPath(t, d, p.up);
    var x, r, rest := NodeAt(t, d, p.up), d - |p.up|, After(t, d, leaves, q.up);
    var f := SeenPath(t, d, leaves, q.up);
    var f' := FromHere(x, r, leaves, p.i, rest);
    behind := Only(Rest(t, d, leaves, q));
    front := Only(f) + Only(f');
    OnlyConcat(f, Tour(x, r, leaves, rest));
    OnlyConcat(f', [Reported(t, d, leaves, q)] + Rest(t, d, leaves, q));
    OnlyStep(Reported(t, d, leaves, q), Rest(t, d, leaves, q));
    Associate(Only(f), Only(f'), OnlyOf(Reported(t, d, leaves, p)) + behind);
    AfterLonger(t, d, leaves, p.up);
    SameLonger(x, r, leaves, p.i, false, After(t, d, leaves, p.up), rest);
    if AllSeen(p.up) {
      assert Marked(p.up) == p.up;
    }
  }

  // ----- Going on from where a search ends -----

  /** The entries above after a search for g: one counts as visited only if the scan has stepped back to it. */
  function PathOf(t: Tree, d: nat, g: nat, k: nat): (up: seq<Above>)
    requires Shape(t, d) && k <= d
    ensures |up| == k
  {
    if k == 0 then []
    else
      var j := k - 1;
      assert Shape(Sub(t, d, g, j), d - j);
      var keys := Sub(t, d, g, j).keys;
      PathOf(t, d, g, j) + [Above(At(keys, g), StepsBack(keys, g))]
  }

  lemma {:induction false} PathOfIs(t: Tree, d: nat, g: nat, k: nat)
    requires Shape(t, d) && k <= d
    ensures OnPath(t, d, PathOf(t, d, g, k)) && NodeAt(t, d, PathOf(t, d, g, k)) == Sub(t, d, g, k)
  {
    if k > 0 {
      var j := k - 1;
      PathOfIs(t, d, g, j);
      SubStep(t, d, g, j);
      var x := Sub(t, d, g, j);
      var a := Above(At(x.keys, g), StepsBack(x.keys, g));
      assert PathOf(t, d, g, k) == PathOf(t, d, g, j) + [a];
      PathDown(t, d, PathOf(t, d, g, j), a);
    }
  }

  /** In all nodes on the way to the leaf the scan steps back. */
  predicate AllStepBack(t: Tree, d: nat, g: nat)
    requires Shape(t, d)
    decreases d
  {
    d == 0 || (StepsBack(t.keys, g) && AllStepBack(t.kids[At(t.keys, g)], d - 1, g))
  }

  lemma {:induction false} PathAbove(t: Tree, d: nat, g: nat, k: nat)
    requires Shape(t, d) && 0 < d && k < d
    ensures PathOf(t, d, g, k + 1) ==
            [Above(At(t.keys, g), StepsBack(t.keys, g))] + PathOf(t.kids[At(t.keys, g)], d - 1, g, k)
  {
    if k > 0 {
      PathAbove(t, d, g, k - 1);
    }
  }

  lemma {:induction false} SeenIff(t: Tree, d: nat, g: nat)
    requires Shape(t, d)
    ensures AllSeen(PathOf(t, d, g, d)) <==> AllStepBack(t, d, g)
    decreases d
  {
    if d > 0 {
      var kid, a := t.kids[At(t.keys, g)], Above(At(t.keys, g), StepsBack(t.keys, g));
      SeenIff(kid, d - 1, g);
      PathAbove(t, d, g, d - 1);
      FirstSeen(a, PathOf(kid, d - 1, g, d - 1));
    }
  }

  lemma FirstSeen(a: Above, up: seq<Above>)
    ensures AllSeen([a] + up) <==> a.seen && AllSeen(up)
  {
    if AllSeen([a] + up) {
      assert ([a] + up)[0] == a;
      forall k | 0 <= k < |up| ensures up[k].seen {
        assert ([a] + up)[k + 1] == up[k];
      }
    }
  }

  /** The keys of a node on the way are strictly increasing. */
  ghost predicate WideAt(x: Tree, r: nat, lo: nat, hi: nat) {
    Shape(x, r) && Ordered(x, lo, hi) && AllWide(Spans(x, r, lo, hi))
  }

  lemma WideStart(t: Tree, d: nat, leaves: map<int, seq<Extent>>, m: nat, n: nat)
    requires IsTree(t, d, leaves, m, n) && 0 < d
    ensures WideAt(t, d, 0, LBLK_LIMIT)
  {
    FitIsWide(Spans(t, d, 0, LBLK_LIMIT), leaves, n);
  }

  lemma WideNext(x: Tree, r: nat, lo: nat, hi: nat, i: nat) returns (lo': nat, hi': nat)
    requires WideAt(x, r, lo, hi) && 0 < r && i < |x.kids|
    ensures Strict(x.keys) && WideAt(x.kids[i], r - 1, lo', hi')
  {
    WideStrict(x, r, lo, hi);
    WideKid(x, r, i, lo, hi);
    lo', hi' := Bound(x.keys, i, lo, hi), Bound(x.keys, i + 1, lo, hi);
  }

  lemma FoundIff(s: seq<Extent>, g: nat)
    requires WellFormed(s) && s != []
    ensures GotoFrom(s, g, 0).0 <==> Lookup(s, g).Some?
    ensures GotoFrom(s, g, 0).0 <==> s[GotoFrom(s, g, 0).1].Contains(g)
  {
    var (found, i) := GotoFrom(s, g, 0);
    LookupNone(s, g);
    if !found {
      GotoMisses(s, g, 0);
    }
  }

  lemma EmptyLeaf(t: Tree, d: nat, leaves: map<int, seq<Extent>>, m: nat, n: nat, g: nat)
    requires IsTree(t, d, leaves, m, n) && LeafAt(leaves, Route(t, d, g)) == []
    ensures d == 0 && Extents(t, d, leaves) == []
  {
    if d > 0 {
      NotEmpty(t, d, leaves, m, n, 0, g);
    } else {
      OneFlat(Span(t.block, 0, LBLK_LIMIT), leaves);
    }
  }

  lemma StandsAtLeaf(t: Tree, d: nat, leaves: map<int, seq<Extent>>, g: nat, i: nat)
    requires Shape(t, d) && i < |LeafAt(leaves, Route(t, d, g))|
    ensures Stands(t, d, leaves, Place(PathOf(t, d, g, d), i, false))
    ensures Reported(t, d, leaves, Place(PathOf(t, d, g, d), i, false)) == Piece(LeafAt(leaves, Route(t, d, g))[i])
  {
    PathOfIs(t, d, g, d);
    RouteIsSub(t, d, g, d);
  }

  /**
   A search for the last extent of a file of one leaf, and the walk from there: the node above is met for the first time
   again, and so is all that is below it.
   */
  lemma WalkRepeats(a: Extent, b: Extent)
    requires a.End() <= b.lblk && 0 < b.len
    ensures var t, leaves := Inner(0, [0], [Leaf(1)]), map[1 := [a, b]];
            Shape(t, 1) && !AllStepBack(t, 1, b.lblk) && Stands(t, 1, leaves, Place(PathOf(t, 1, b.lblk, 1), 1, false)) &&
            Rest(t, 1, leaves, Place(PathOf(t, 1, b.lblk, 1), 1, false)) == [Visit(1, false), Piece(a), Piece(b), Visit(1, true)]
  {
    var t, leaves, g := Inner(0, [0], [Leaf(1)]), map[1 := [a, b]], b.lblk;
    assert t.kids[0] == Leaf(1) && Shape(t.kids[0], 0);
    assert PathOf(t, 1, g, 0) == [] && Sub(t, 1, g, 0) == t && At([0], g) == 0;
    assert PathOf(t, 1, g, 1) == [] + [Above(0, false)] == [Above(0, false)];
    assert Route(t, 1, g) == 1;
    StandsAtLeaf(t, 1, leaves, g, 1);
    var up := [Above(0, false)];
    assert up[..0] == [];
    assert After(t, 1, leaves, up) == [Visit(1, false)] + Here(t, 1, leaves, 0, false, []);
    assert TourFrom(t, 1, leaves, 1, []) == [];
    assert Behind(t, 1, leaves, 0, []) == [Visit(1, true)] + [] == [Visit(1, true)];
    assert Pieces([a, b], 2, [Visit(1, true)]) == [Visit(1, true)];
    assert Pieces([a, b], 1, [Visit(1, true)]) == [Piece(b)] + [Visit(1, true)];
    assert Tour(t.kids[0], 0, leaves, [Visit(1, true)]) == [Piece(a)] + ([Piece(b)] + [Visit(1, true)]);
    assert Here(t, 1, leaves, 0, false, []) == Tour(t.kids[0], 0, leaves, [Visit(1, true)]) == [Piece(a), Piece(b), Visit(1, true)];
    assert NodeAt(t, 1, up) == Leaf(1) && LeafAt(leaves, 1) == [a, b];
    assert !StepsBack([0], g);
    assert Rest(t, 1, leaves, Place(up, 1, false)) == Pieces([a, b], 2, After(t, 1, leaves, up));
  }

  // ----- The handle -----

  class Handle {
    const tree: Tree
    const depth: nat
    const leaves: map<int, seq<Extent>>
    var place: Place

    ghost predicate Given() {
      Shape(tree, depth) && (depth > 0 ==> Filled(tree, depth, leaves))
    }

    ghost predicate Valid()
      reads this
    {
      Given() && Stands(tree, depth, leaves, place)
    }

    function ToCome(): (r: seq<Item>)
      reads this
      requires Valid()
    {
      Rest(tree, depth, leaves, place)
    }

    function Current(): (x: Item)
      reads this
      requires Valid()
    {
      Reported(tree, depth, leaves, place)
    }

    constructor (tree: Tree, depth: nat, leaves: map<int, seq<Extent>>)
      requires Shape(tree, depth) && (depth > 0 ==> Filled(tree, depth, leaves))
      ensures Given() && this.tree == tree && this.depth == depth && this.leaves == leaves
    {
      this.tree, this.depth, this.leaves := tree, depth, leaves;
      place := Place([], 0, false);
    }

    /** EXT2_EXTENT_ROOT. */
    method Root() returns (r: Option<Item>)
      requires Given()
      modifies this`place
      ensures r.None? <==> Tour(tree, depth, leaves, []) == []
      ensures r.Some? ==> Valid() && r.value == Current() && Tour(tree, depth, leaves, []) == [r.value] + ToCome()
    {
      place := Place([], 0, false);
      if Size(tree, depth, leaves) == 0 {
        return None;
      }
      FirstOfTour(tree, depth, leaves);
      return Some(Current());
    }

    /** The entries of the index that a search for g goes down by, with what is left behind for EXT2_EXTENT_NEXT. */
    method GoDown(g: nat, ghost m: nat, ghost n: nat) returns (up: seq<Above>, leaf: Tree)
      requires IsTree(tree, depth, leaves, m, n)
      ensures up == PathOf(tree, depth, g, depth) && leaf == Sub(tree, depth, g, depth)
    {
      up, leaf := [], tree;
      var level := 0;
      ghost var lo, hi := 0, LBLK_LIMIT;
      if depth > 0 {
        WideStart(tree, depth, leaves, m, n);
      }
      while level < depth
        invariant level <= depth && up == PathOf(tree, depth, g, level) && leaf == Sub(tree, depth, g, level)
        invariant depth > 0 ==> WideAt(leaf, depth - level, lo, hi)
      {
        SubStep(tree, depth, g, level);
        lo, hi := WideNext(leaf, depth - level, lo, hi, At(leaf.keys, g));
        var i, back := KidFor(leaf.keys, g);
        up, leaf, level := up + [Above(i, back)], leaf.kids[i], level + 1;
      }
    }

    /**
     `ext2fs_extent_goto2` to the leaves: stands at the extent of g, or beside the hole. From there EXT2_EXTENT_NEXT_LEAF
     leads over the extents behind it, and over no others, exactly if the scan of every index node on the way has stepped
     back. Otherwise extents come again.
     */
    method Goto(g: nat, ghost m: nat, ghost n: nat) returns (found: bool, ghost front: seq<Extent>, ghost behind: seq<Extent>)
      requires Given() && IsTree(tree, depth, leaves, m, n)
      modifies this`place
      ensures found <==> Lookup(Extents(tree, depth, leaves), g).Some?
      ensures Extents(tree, depth, leaves) != [] ==>
                Valid() && Current().Piece? && (found <==> Current().e.Contains(g)) &&
                Extents(tree, depth, leaves) == front + ([Current().e] + behind) &&
                (Only(ToCome()) == behind <==> AllStepBack(tree, depth, g)) && |Only(ToCome())| >= |behind|
    {
      var up, leaf := GoDown(g, m, n);
      RouteIsSub(tree, depth, g, depth);
      LooksRight(tree, depth, leaves, m, n, g);
      TreeWalk(tree, depth, leaves, m, n);
      var s := LeafAt(leaves, leaf.block);
      if s == [] {
        EmptyLeaf(tree, depth, leaves, m, n, g);
        return false, [], [];
      }
      var r := GotoFrom(s, g, 0);
      FoundIff(s, g);
      found := r.0;
      StandsAtLeaf(tree, depth, leaves, g, r.1);
      place := Place(up, r.1, false);
      front, behind := GoesOnIff(tree, depth, leaves, place);
      SeenIff(tree, depth, g);
    }

    /** EXT2_EXTENT_NEXT. */
    method Next() returns (r: Option<Item>)
      requires Valid()
      modifies this`place
      ensures Valid()
      ensures r.None? ==> place == old(place) && ToCome() == [] && Following(tree, depth, leaves, place) == None
      ensures r.Some? ==> r.value == Current() && Steps(tree, depth, leaves, old(place), place)
    {
      var Place(up, i, second) := place;
      var n := |up|;
      if n < depth && !second {
        DownSteps(tree, depth, leaves, up, i);
        place := Place(up + [Above(i, true)], 0, false);
      } else if i + 1 < Size(NodeAt(tree, depth, up), depth - n, leaves) {
        SiblingSteps(tree, depth, leaves, up, i);
        place := Place(up, i + 1, false);
      } else if n > 0 {
        place := EntryAgain(tree, depth, leaves, up, i);
      } else {
        LastOfTour(tree, depth, leaves, i);
        return None;
      }
      return Some(Current());
    }

    /** EXT2_EXTENT_PREV: back to a place from which EXT2_EXTENT_NEXT leads here, or would if it had come down. */
    method Prev() returns (r: Option<Item>)
      requires Valid()
      modifies this`place
      ensures Valid()
      ensures r.None? ==> place == old(place) && [Current()] + ToCome() == Tour(tree, depth, leaves, [])
      ensures r.Some? ==> r.value == Current() && Steps(tree, depth, leaves, place, ComeDown(old(place)))
    {
      var Place(up, i, second) := place;
      var n := |up|;
      ghost var p := place;
      if n < depth && second {
        assert ComeDown(p) == p;
        place := LastBelow(tree, depth, leaves, up, i);
      } else if i > 0 {
        assert ComeDown(p) == p == Place(up, i - 1 + 1, false);
        SiblingSteps(tree, depth, leaves, up, i - 1);
        place := Place(up, i - 1, n < depth);
      } else if n > 0 {
        assert p == Place(up, 0, false);
        place := EntryAbove(tree, depth, leaves, up);
      } else {
        FirstOfTour(tree, depth, leaves);
        return None;
      }
      return Some(Current());
    }

    /** EXT2_EXTENT_NEXT_LEAF: the next extent. */
    method NextLeaf() returns (r: Option<Item>)
      requires Valid()
      modifies this`place
      ensures Valid()
      ensures r == if Only(old(ToCome())) == [] then None else Some(Piece(Only(old(ToCome()))[0]))
      ensures if r.None? then ToCome() == [] else Only(ToCome()) == Only(old(ToCome()))[1..]
    {
      ghost var s := ToCome();
      r := Next();
      while r.Some? && |place.up| < depth
        invariant Valid() && (r.Some? ==> r.value == Current() && Only(s) == Only([r.value] + ToCome()))
        invariant r.None? ==> ToCome() == [] && Only(s) == []
        decreases if r.Some? then 1 + |ToCome()| else 0
      {
        OnlyStep(r.value, ToCome());
        r := Next();
      }
      if r.Some? {
        OnlyStep(r.value, ToCome());
      }
    }
  }
}
