/**
 The leaves of the index of a hashed directory in order, each with the hashes it is for. Growing the index leaves
 this list as it is; a new leaf takes over part of the hashes of one leaf.
 */
module HashSpans {
  import opened HashTree

  /** A leaf, and the bounds between which the keys above it put it. */
  datatype Span = Span(block: nat, lo: nat, hi: nat)

  ghost function Spans(t: Tree, d: nat, lo: nat, hi: nat): (r: seq<Span>)
    requires Shape(t, d)
    decreases d, 0
  {
    if d == 0 then [Span(t.block, lo, hi)] else KidSpans(t, d, 0, |t.kids|, lo, hi)
  }

  /** The leaves below the kids from i to j. */
  ghost function KidSpans(t: Tree, d: nat, i: nat, j: nat, lo: nat, hi: nat): (r: seq<Span>)
    requires Shape(t, d) && 0 < d && i <= j <= |t.kids|
    decreases d - 1, j + 1
  {
    if i == j then []
    else KidSpans(t, d, i, j - 1, lo, hi) + Spans(t.kids[j - 1], d - 1, Bound(t.keys, j - 1, lo, hi), Bound(t.keys, j, lo, hi))
  }

  lemma Associate<T>(a: seq<T>, b: seq<T>, c: seq<T>)
    ensures a + (b + c) == a + b + c
  {
  }

  lemma {:induction false} KidSpansJoin(t: Tree, d: nat, i: nat, j: nat, k: nat, lo: nat, hi: nat)
    requires Shape(t, d) && 0 < d && i <= j <= k <= |t.kids|
    ensures KidSpans(t, d, i, k, lo, hi) == KidSpans(t, d, i, j, lo, hi) + KidSpans(t, d, j, k, lo, hi)
    decreases k
  {
    if j == k {
      assert KidSpans(t, d, i, k, lo, hi) + [] == KidSpans(t, d, i, k, lo, hi);
    } else {
      KidSpansJoin(t, d, i, j, k - 1, lo, hi);
      Associate(KidSpans(t, d, i, j, lo, hi), KidSpans(t, d, j, k - 1, lo, hi),
                Spans(t.kids[k - 1], d - 1, Bound(t.keys, k - 1, lo, hi), Bound(t.keys, k, lo, hi)));
    }
  }

  /** The same kids between the same bounds, in another place of another block. */
  lemma {:induction false} KidSpansSame(t: Tree, d: nat, i: nat, j: nat, lo: nat, hi: nat, t': Tree, shift: int, lo': nat, hi': nat)
    requires Shape(t, d) && 0 < d && i <= j <= |t.kids| && Shape(t', d) && 0 <= i + shift && j + shift <= |t'.kids|
    requires forall n :: i <= n < j ==> SameKid(t, n, lo, hi, t', shift, lo', hi')
    ensures KidSpans(t', d, i + shift, j + shift, lo', hi') == KidSpans(t, d, i, j, lo, hi)
    decreases j
  {
    if i < j {
      KidSpansSame(t, d, i, j - 1, lo, hi, t', shift, lo', hi');
      assert SameKid(t, j - 1, lo, hi, t', shift, lo', hi');
    }
  }

  ghost predicate SameKid(t: Tree, n: nat, lo: nat, hi: nat, t': Tree, shift: int, lo': nat, hi': nat) {
    t.Inner? && t'.Inner? && n < |t.kids| && 0 <= n + shift < |t'.kids| && t'.kids[n + shift] == t.kids[n] &&
    Bound(t'.keys, n + shift, lo', hi') == Bound(t.keys, n, lo, hi) &&
    Bound(t'.keys, n + shift + 1, lo', hi') == Bound(t.keys, n + 1, lo, hi)
  }

  /** What lies before and behind the leaves of one kid. */
  lemma KidSpansAround(t: Tree, d: nat, a: nat, lo: nat, hi: nat)
    requires Shape(t, d) && 0 < d && a < |t.kids|
    ensures Spans(t, d, lo, hi) ==
            KidSpans(t, d, 0, a, lo, hi) + Spans(t.kids[a], d - 1, Bound(t.keys, a, lo, hi), Bound(t.keys, a + 1, lo, hi)) +
            KidSpans(t, d, a + 1, |t.kids|, lo, hi)
  {
    KidSpansJoin(t, d, 0, a + 1, |t.kids|, lo, hi);
  }

  /** Replacing a subtree replaces its leaves in the list. */
  lemma {:induction false} PutSpans(t: Tree, d: nat, h: nat, k: nat, x: Tree, lo: nat, hi: nat)
    returns (before: seq<Span>, behind: seq<Span>)
    requires Shape(t, d) && k <= d && Shape(x, d - k)
    ensures Spans(t, d, lo, hi) == before + Spans(Sub(t, d, h, k), d - k, Lo(t, d, h, k, lo), Hi(t, d, h, k, hi)) + behind
    ensures Spans(Put(t, d, h, k, x), d, lo, hi) == before + Spans(x, d - k, Lo(t, d, h, k, lo), Hi(t, d, h, k, hi)) + behind
    decreases k
  {
    if k == 0 {
      before, behind := [], [];
      assert [] + Spans(t, d, lo, hi) + [] == Spans(t, d, lo, hi);
      assert [] + Spans(x, d, lo, hi) + [] == Spans(x, d, lo, hi);
    } else {
      var i := At(t.keys, h);
      var lo', hi' := Bound(t.keys, i, lo, hi), Bound(t.keys, i + 1, lo, hi);
      var a, b := PutSpans(t.kids[i], d - 1, h, k - 1, x, lo', hi');
      before, behind := KidSpans(t, d, 0, i, lo, hi) + a, b + KidSpans(t, d, i + 1, |t.kids|, lo, hi);
      Within(t, d, i, lo, hi, t.kids[i], a, Spans(Sub(t, d, h, k), d - k, Lo(t, d, h, k, lo), Hi(t, d, h, k, hi)), b);
      Within(t, d, i, lo, hi, Put(t.kids[i], d - 1, h, k - 1, x), a, Spans(x, d - k, Lo(t, d, h, k, lo), Hi(t, d, h, k, hi)), b);
      assert t == Inner(t.block, t.keys, t.kids[i := t.kids[i]]);
    }
  }

  /** The same, with the depth of the subtree by name. */
  lemma PutSpansAt(t: Tree, d: nat, h: nat, k: nat, r: nat, x: Tree, lo: nat, hi: nat)
    returns (before: seq<Span>, behind: seq<Span>)
    requires Shape(t, d) && k <= d && r == d - k && Shape(x, r) && Shape(Sub(t, d, h, k), r)
    ensures Spans(t, d, lo, hi) == before + Spans(Sub(t, d, h, k), r, Lo(t, d, h, k, lo), Hi(t, d, h, k, hi)) + behind
    ensures Spans(Put(t, d, h, k, x), d, lo, hi) == before + Spans(x, r, Lo(t, d, h, k, lo), Hi(t, d, h, k, hi)) + behind
  {
    before, behind := PutSpans(t, d, h, k, x, lo, hi);
  }

  /** The leaves of a tree around those in the middle of one kid. */
  lemma Within(t: Tree, d: nat, i: nat, lo: nat, hi: nat, kid: Tree, a: seq<Span>, m: seq<Span>, b: seq<Span>)
    requires Shape(t, d) && 0 < d && i < |t.kids| && Shape(kid, d - 1)
    requires Spans(kid, d - 1, Bound(t.keys, i, lo, hi), Bound(t.keys, i + 1, lo, hi)) == a + m + b
    ensures var t' := Inner(t.block, t.keys, t.kids[i := kid]);
            Shape(t', d) && Spans(t', d, lo, hi) == (KidSpans(t, d, 0, i, lo, hi) + a) + m + (b + KidSpans(t, d, i + 1, |t.kids|, lo, hi))
  {
    var t' := Inner(t.block, t.keys, t.kids[i := kid]);
    KidSpansAround(t', d, i, lo, hi);
    OtherKids(t, d, i, t', lo, hi);
    Wrap(KidSpans(t, d, 0, i, lo, hi), a, m, b, KidSpans(t, d, i + 1, |t.kids|, lo, hi));
  }

  lemma Wrap<T>(p: seq<T>, a: seq<T>, m: seq<T>, b: seq<T>, q: seq<T>)
    ensures p + (a + m + b) + q == (p + a) + m + (b + q)
  {
  }

  lemma OtherKids(t: Tree, d: nat, i: nat, t': Tree, lo: nat, hi: nat)
    requires Shape(t, d) && 0 < d && i < |t.kids| && Shape(t', d) && t'.keys == t.keys && |t'.kids| == |t.kids|
    requires forall j :: 0 <= j < |t.kids| && j != i ==> t'.kids[j] == t.kids[j]
    ensures KidSpans(t', d, 0, i, lo, hi) == KidSpans(t, d, 0, i, lo, hi)
    ensures KidSpans(t', d, i + 1, |t.kids|, lo, hi) == KidSpans(t, d, i + 1, |t.kids|, lo, hi)
  {
    KidSpansSame(t, d, 0, i, lo, hi, t', 0, lo, hi);
    KidSpansSame(t, d, i + 1, |t.kids|, lo, hi, t', 0, lo, hi);
  }

  /** Inserting a kid replaces the leaves of one kid by those of two. */
  lemma InsertSpans(t: Tree, d: nat, a: nat, x: Tree, key: nat, y: Tree, lo: nat, hi: nat)
    returns (before: seq<Span>, behind: seq<Span>)
    requires Shape(t, d) && 0 < d && a < |t.keys| && Shape(x, d - 1) && Shape(y, d - 1)
    ensures Shape(Insert(t, a, x, key, y), d)
    ensures Spans(t, d, lo, hi) ==
            before + Spans(t.kids[a], d - 1, Bound(t.keys, a, lo, hi), Bound(t.keys, a + 1, lo, hi)) + behind
    ensures Spans(Insert(t, a, x, key, y), d, lo, hi) ==
            before + (Spans(x, d - 1, Bound(t.keys, a, lo, hi), key) + Spans(y, d - 1, key, Bound(t.keys, a + 1, lo, hi))) + behind
  {
    InsertShape(t, d, a, x, key, y);
    before, behind := KidSpans(t, d, 0, a, lo, hi), KidSpans(t, d, a + 1, |t.kids|, lo, hi);
    KidSpansAround(t, d, a, lo, hi);
    InsertAround(t, d, a, x, key, y, lo, hi);
    Associate(before, Spans(x, d - 1, Bound(t.keys, a, lo, hi), key), Spans(y, d - 1, key, Bound(t.keys, a + 1, lo, hi)));
  }

  lemma InsertAround(t: Tree, d: nat, a: nat, x: Tree, key: nat, y: Tree, lo: nat, hi: nat)
    requires Shape(t, d) && 0 < d && a < |t.keys| && Shape(x, d - 1) && Shape(y, d - 1) && Shape(Insert(t, a, x, key, y), d)
    ensures Spans(Insert(t, a, x, key, y), d, lo, hi) ==
            KidSpans(t, d, 0, a, lo, hi) + Spans(x, d - 1, Bound(t.keys, a, lo, hi), key) +
            Spans(y, d - 1, key, Bound(t.keys, a + 1, lo, hi)) + KidSpans(t, d, a + 1, |t.kids|, lo, hi)
  {
    var t' := Insert(t, a, x, key, y);
    InsertOthers(t, d, a, x, key, y, lo, hi);
    BoundsWith(t.keys, a, key, lo, hi);
    KidSpansJoin(t', d, 0, a + 2, |t'.kids|, lo, hi);
    var b := a + 1;
    KidSpansLast(t', d, 0, b, lo, hi);
    KidSpansLast(t', d, 0, b + 1, lo, hi);
  }

  lemma KidSpansLast(t: Tree, d: nat, i: nat, j: nat, lo: nat, hi: nat)
    requires Shape(t, d) && 0 < d && i < j <= |t.kids|
    ensures KidSpans(t, d, i, j, lo, hi) ==
            KidSpans(t, d, i, j - 1, lo, hi) + Spans(t.kids[j - 1], d - 1, Bound(t.keys, j - 1, lo, hi), Bound(t.keys, j, lo, hi))
  {
  }

  lemma InsertOthers(t: Tree, d: nat, a: nat, x: Tree, key: nat, y: Tree, lo: nat, hi: nat)
    requires Shape(t, d) && 0 < d && a < |t.keys| && Shape(x, d - 1) && Shape(y, d - 1) && Shape(Insert(t, a, x, key, y), d)
    ensures var t' := Insert(t, a, x, key, y);
            KidSpans(t', d, 0, a, lo, hi) == KidSpans(t, d, 0, a, lo, hi) &&
            KidSpans(t', d, a + 2, |t'.kids|, lo, hi) == KidSpans(t, d, a + 1, |t.kids|, lo, hi)
  {
    var t' := Insert(t, a, x, key, y);
    KidSpansSame(t, d, 0, a, lo, hi, t', 0, lo, hi);
    KidSpansSame(t, d, a + 1, |t.kids|, lo, hi, t', 1, lo, hi);
  }

  /** The two halves of an index block have the leaves of the whole. */
  lemma SplitSpans(t: Tree, d: nat, c: nat, block: nat, lo: nat, hi: nat)
    requires Shape(t, d) && 0 < d && 0 < c < |t.keys|
    ensures Shape(Lower(t, c), d) && Shape(Upper(t, c, block), d)
    ensures Spans(Lower(t, c), d, lo, t.keys[c]) + Spans(Upper(t, c, block), d, t.keys[c], hi) == Spans(t, d, lo, hi)
  {
    SplitShape(t, d, c, block);
    var x, y, key, n := Lower(t, c), Upper(t, c, block), t.keys[c], |t.kids|;
    KidSpansJoin(t, d, 0, c, n, lo, hi);
    KidSpansSame(t, d, 0, c, lo, hi, x, 0, lo, key);
    KidSpansSame(t, d, c, n, lo, hi, y, 0 - c, key, hi);
  }

  // ----- The list of leaves as the index grows -----

  /** A new level leaves the list as it is. */
  lemma DeeperSpans(t: Tree, d: nat, block: nat, lo: nat, hi: nat)
    requires Shape(t, d) && 0 < d && Shape(Deeper(t, block), d + 1)
    ensures Spans(Deeper(t, block), d + 1, lo, hi) == Spans(t, d, lo, hi)
  {
    var t', kid := Deeper(t, block), Inner(block, t.keys, t.kids);
    assert Shape(kid, d);
    KidSpansSame(t, d, 0, |t.kids|, lo, hi, kid, 0, lo, hi);
    KidSpansLast(t', d + 1, 0, 1, lo, hi);
    assert [] + Spans(kid, d, lo, hi) == Spans(kid, d, lo, hi);
  }

  /** So does the splitting of an index block. */
  lemma SplitAtSpans(t: Tree, d: nat, h: nat, k: nat, c: nat, extra: nat, lo: nat, hi: nat)
    requires Shape(t, d) && k + 1 < d && 0 < c < |Sub(t, d, h, k + 1).keys|
    ensures Spans(SplitAt(t, d, h, k, c, extra), d, lo, hi) == Spans(t, d, lo, hi)
  {
    SubStep(t, d, h, k);
    var s := Sub(t, d, h, k);
    var a := At(s.keys, h);
    SplitShape(s.kids[a], d - k - 1, c, extra);
    var x := SplitKid(s, a, c, extra);
    InsertShape(s, d - k, a, Lower(s.kids[a], c), s.kids[a].keys[c], Upper(s.kids[a], c, extra));
    SplitKidSpans(s, d - k, a, c, extra, Lo(t, d, h, k, lo), Hi(t, d, h, k, hi));
    var before, behind := PutSpans(t, d, h, k, x, lo, hi);
  }

  lemma SplitKidSpans(t: Tree, d: nat, a: nat, c: nat, extra: nat, lo: nat, hi: nat)
    requires Shape(t, d) && 1 < d && a < |t.keys| && Shape(t.kids[a], d - 1) && 0 < c < |t.kids[a].keys|
    requires Shape(SplitKid(t, a, c, extra), d)
    ensures Spans(SplitKid(t, a, c, extra), d, lo, hi) == Spans(t, d, lo, hi)
  {
    var x := t.kids[a];
    SplitSpans(x, d - 1, c, extra, Bound(t.keys, a, lo, hi), Bound(t.keys, a + 1, lo, hi));
    var before, behind := InsertSpans(t, d, a, Lower(x, c), x.keys[c], Upper(x, c, extra), lo, hi);
  }

  /** The leaf that a hash leads to is in the list, with bounds that hold the hash. */
  lemma SpanOfHash(t: Tree, d: nat, h: nat, lo: nat, hi: nat) returns (before: seq<Span>, behind: seq<Span>)
    requires Shape(t, d)
    ensures Spans(t, d, lo, hi) == before + [Span(Route(t, d, h), Lo(t, d, h, d, lo), Hi(t, d, h, d, hi))] + behind
  {
    RouteIsSub(t, d, h, d);
    before, behind := PutSpans(t, d, h, d, Sub(t, d, h, d), lo, hi);
  }

  /** A new leaf takes over the hashes from its key on of the leaf before it. */
  lemma InsertAtSpans(t: Tree, d: nat, h: nat, key: nat, extra: nat, lo: nat, hi: nat)
    returns (before: seq<Span>, behind: seq<Span>)
    requires Shape(t, d) && 0 < d
    ensures var b, lo', hi' := Route(t, d, h), Lo(t, d, h, d, lo), Hi(t, d, h, d, hi);
            Spans(t, d, lo, hi) == before + [Span(b, lo', hi')] + behind &&
            Spans(InsertAt(t, d, h, key, extra), d, lo, hi) == before + [Span(b, lo', key), Span(extra, key, hi')] + behind
  {
    SubStep(t, d, h, d - 1);
    BoundStep(t, d, h, d - 1, lo, hi);
    RouteIsSub(t, d, h, d);
    var s := Sub(t, d, h, d - 1);
    var a := At(s.keys, h);
    InsertShape(s, 1, a, s.kids[a], key, Leaf(extra));
    var p, q := PutSpansAt(t, d, h, d - 1, 1, InsertLeaf(s, a, key, extra), lo, hi);
    var u, v := InsertLeafSpans(s, a, key, extra, Lo(t, d, h, d - 1, lo), Hi(t, d, h, d - 1, hi));
    before, behind := p + u, v + q;
    var b, lo', hi' := Route(t, d, h), Lo(t, d, h, d, lo), Hi(t, d, h, d, hi);
    Wrap(p, u, [Span(b, lo', hi')], v, q);
    Wrap(p, u, [Span(b, lo', key), Span(extra, key, hi')], v, q);
  }

  lemma InsertLeafSpans(t: Tree, a: nat, key: nat, extra: nat, lo: nat, hi: nat) returns (before: seq<Span>, behind: seq<Span>)
    requires Shape(t, 1) && a < |t.keys| && Shape(InsertLeaf(t, a, key, extra), 1)
    ensures Spans(t, 1, lo, hi) ==
            before + [Span(t.kids[a].block, Bound(t.keys, a, lo, hi), Bound(t.keys, a + 1, lo, hi))] + behind
    ensures Spans(InsertLeaf(t, a, key, extra), 1, lo, hi) ==
            before + [Span(t.kids[a].block, Bound(t.keys, a, lo, hi), key), Span(extra, key, Bound(t.keys, a + 1, lo, hi))] + behind
  {
    before, behind := InsertSpans(t, 1, a, t.kids[a], key, Leaf(extra), lo, hi);
  }

  // ----- No leaf twice -----

  ghost predicate Distinct(s: seq<Span>) {
    forall i, j :: 0 <= i < j < |s| ==> s[i].block != s[j].block
  }

  ghost predicate AllOn(s: seq<Span>, t: Tree) {
    forall i :: 0 <= i < |s| ==> On(t, s[i].block)
  }

  lemma {:induction false} SpansOn(t: Tree, d: nat, lo: nat, hi: nat)
    requires Shape(t, d)
    ensures AllOn(Spans(t, d, lo, hi), t)
    decreases d, 0
  {
    if d > 0 {
      KidSpansOn(t, d, |t.kids|, lo, hi);
      var s := Spans(t, d, lo, hi);
      forall i | 0 <= i < |s| ensures On(t, s[i].block) {
        var k :| 0 <= k < |t.kids| && On(t.kids[k], s[i].block);
      }
    }
  }

  ghost predicate OnFirst(s: seq<Span>, t: Tree, j: nat) {
    t.Inner? && forall i :: 0 <= i < |s| ==> exists k :: 0 <= k < j <= |t.kids| && On(t.kids[k], s[i].block)
  }

  lemma {:induction false} KidSpansOn(t: Tree, d: nat, j: nat, lo: nat, hi: nat)
    requires Shape(t, d) && 0 < d && j <= |t.kids|
    ensures OnFirst(KidSpans(t, d, 0, j, lo, hi), t, j)
    decreases d - 1, j + 1
  {
    if j > 0 {
      KidSpansOn(t, d, j - 1, lo, hi);
      SpansOn(t.kids[j - 1], d - 1, Bound(t.keys, j - 1, lo, hi), Bound(t.keys, j, lo, hi));
      OneKidMore(KidSpans(t, d, 0, j - 1, lo, hi),
                 Spans(t.kids[j - 1], d - 1, Bound(t.keys, j - 1, lo, hi), Bound(t.keys, j, lo, hi)), t, j);
    }
  }

  lemma OneKidMore(a: seq<Span>, b: seq<Span>, t: Tree, j: nat)
    requires 0 < j && t.Inner? && j <= |t.kids| && OnFirst(a, t, j - 1) && AllOn(b, t.kids[j - 1])
    ensures OnFirst(a + b, t, j)
  {
    var s := a + b;
    forall i | 0 <= i < |s| ensures exists k :: 0 <= k < j <= |t.kids| && On(t.kids[k], s[i].block) {
      if i < |a| {
        assert s[i] == a[i];
        var k :| 0 <= k < j - 1 && On(t.kids[k], a[i].block);
      } else {
        assert s[i] == b[i - |a|] && On(t.kids[j - 1], s[i].block);
      }
    }
  }

  lemma {:induction false} SpansDistinct(t: Tree, d: nat, lo: nat, hi: nat)
    requires Shape(t, d) && Separate(t)
    ensures Distinct(Spans(t, d, lo, hi))
    decreases d, 0
  {
    if d > 0 {
      KidSpansDistinct(t, d, |t.kids|, lo, hi);
    }
  }

  lemma {:induction false} KidSpansDistinct(t: Tree, d: nat, j: nat, lo: nat, hi: nat)
    requires Shape(t, d) && 0 < d && j <= |t.kids| && Separate(t)
    ensures Distinct(KidSpans(t, d, 0, j, lo, hi))
    decreases d - 1, j + 1
  {
    if j > 0 {
      var kid, lo', hi' := t.kids[j - 1], Bound(t.keys, j - 1, lo, hi), Bound(t.keys, j, lo, hi);
      KidSpansDistinct(t, d, j - 1, lo, hi);
      SpansDistinct(kid, d - 1, lo', hi');
      KidSpansOn(t, d, j - 1, lo, hi);
      SpansOn(kid, d - 1, lo', hi');
      DistinctTogether(KidSpans(t, d, 0, j - 1, lo, hi), Spans(kid, d - 1, lo', hi'), t, j);
    }
  }

  lemma DistinctTogether(a: seq<Span>, b: seq<Span>, t: Tree, j: nat)
    requires 0 < j && t.Inner? && j <= |t.kids| && Separate(t) && Distinct(a) && Distinct(b)
    requires OnFirst(a, t, j - 1) && AllOn(b, t.kids[j - 1])
    ensures Distinct(a + b)
  {
    forall x, y | 0 <= x < |a| && 0 <= y < |b| ensures a[x].block != b[y].block {
      var k :| 0 <= k < j - 1 && On(t.kids[k], a[x].block);
      assert Apart(t.kids[k], t.kids[j - 1]);
    }
  }

  // ----- The leaves in order -----

  ghost predicate InOrder(s: seq<Span>, lo: nat, hi: nat) {
    && lo <= hi && (forall i :: 0 <= i < |s| ==> lo <= s[i].lo <= s[i].hi <= hi)
    && (forall i, j :: 0 <= i < j < |s| ==> s[i].hi <= s[j].lo)
  }

  lemma InOrderTogether(a: seq<Span>, b: seq<Span>, lo: nat, mid: nat, hi: nat)
    requires InOrder(a, lo, mid) && InOrder(b, mid, hi)
    ensures InOrder(a + b, lo, hi)
  {
  }

  /** The bounds of the leaves do not overlap. */
  lemma {:induction false} SpansInOrder(t: Tree, d: nat, lo: nat, hi: nat)
    requires Shape(t, d) && Ordered(t, lo, hi)
    ensures InOrder(Spans(t, d, lo, hi), lo, hi)
    decreases d, 0
  {
    if d > 0 {
      KidSpansInOrder(t, d, |t.kids|, lo, hi);
    }
  }

  lemma {:induction false} KidSpansInOrder(t: Tree, d: nat, j: nat, lo: nat, hi: nat)
    requires Shape(t, d) && 0 < d && j <= |t.kids| && Ordered(t, lo, hi)
    ensures InOrder(KidSpans(t, d, 0, j, lo, hi), lo, Bound(t.keys, j, lo, hi))
    decreases d - 1, j + 1
  {
    if j > 0 {
      KidSpansInOrder(t, d, j - 1, lo, hi);
      SpansInOrder(t.kids[j - 1], d - 1, Bound(t.keys, j - 1, lo, hi), Bound(t.keys, j, lo, hi));
      InOrderTogether(KidSpans(t, d, 0, j - 1, lo, hi),
                      Spans(t.kids[j - 1], d - 1, Bound(t.keys, j - 1, lo, hi), Bound(t.keys, j, lo, hi)),
                      lo, Bound(t.keys, j - 1, lo, hi), Bound(t.keys, j, lo, hi));
    }
  }

  /** The place of the leaf that a hash leads to. */
  lemma PlaceOfHash(t: Tree, d: nat, g: nat, lo: nat, hi: nat) returns (k: nat)
    requires Shape(t, d) && Ordered(t, lo, hi) && lo <= g < hi
    ensures var s := Spans(t, d, lo, hi); k < |s| && s[k].block == Route(t, d, g) && s[k].lo <= g < s[k].hi
  {
    var before, behind := SpanOfHash(t, d, g, lo, hi);
    k := |before|;
    SubOrdered(t, d, g, d, lo, hi);
  }

  /**
   A hash may be filed in the leaf it leads to, or in one behind it if all leaves up to that one begin with the next,
   odd key.
   */
  lemma FiledIsFound(t: Tree, d: nat, k: nat, g: nat, lo: nat, hi: nat) returns (first: nat)
    requires Shape(t, d) && Ordered(t, lo, hi) && lo <= g < hi && lo % 2 == 0 && k < |Spans(t, d, lo, hi)|
    requires var s := Spans(t, d, lo, hi)[k]; s.lo - s.lo % 2 <= g < s.hi
    ensures var s := Spans(t, d, lo, hi);
            first <= k && s[first].block == Route(t, d, g) && forall j :: first < j <= k ==> s[j].lo == g + 1 && s[j].lo % 2 == 1
  {
    first := PlaceOfHash(t, d, g, lo, hi);
    SpansInOrder(t, d, lo, hi);
  }
}
