/**
 The search tree under libext2fs/blkmap64_rb.c: extents are heap objects whose bounds change in
 place, the links between them are a value. The rebalancing of the rb library, which rbtree.c holds
 and which keeps the order of the nodes, is not part of this model.
 */
module RbTree {
  import opened Runs

  /** `struct bmap_rb_extent`. */
  class RbExtent {
    var start: nat
    var count: nat

    constructor (start: nat, count: nat)
      ensures this.start == start && this.count == count
    {
      this.start, this.count := start, count;
    }

    function End(): nat
      reads this
    {
      start + count
    }
  }

  datatype Shape = Nil | Node(left: Shape, ext: RbExtent, right: Shape)

  /** The extents from left to right. */
  function InOrder(t: Shape): (ns: seq<RbExtent>) {
    match t
    case Nil => []
    case Node(l, x, r) => InOrder(l) + [x] + InOrder(r)
  }

  /**
   `ext2fs_rb_link_node`: hangs a new node in an empty link. A tree of n nodes has n + 1 of them,
   one in each gap of its order, so a link is named by the gap g it lies in.
   */
  function Link(t: Shape, g: nat, x: RbExtent): (t': Shape)
    requires g <= |InOrder(t)|
  {
    match t
    case Nil => Node(Nil, x, Nil)
    case Node(l, y, r) =>
      var n := |InOrder(l)|;
      if g <= n then Node(Link(l, g, x), y, r) else Node(l, y, Link(r, g - n - 1, x))
  }

  lemma {:induction false} LinkInOrder(t: Shape, g: nat, x: RbExtent)
    requires g <= |InOrder(t)|
    ensures InOrder(Link(t, g, x)) == InOrder(t)[..g] + [x] + InOrder(t)[g..]
  {
    if t != Nil {
      var a, b := InOrder(t.left), InOrder(t.right);
      if g <= |a| {
        LinkInOrder(t.left, g, x);
        assert (a + [t.ext] + b)[..g] == a[..g] && (a + [t.ext] + b)[g..] == a[g..] + [t.ext] + b;
      } else {
        var h := g - |a| - 1;
        LinkInOrder(t.right, h, x);
        assert (a + [t.ext] + b)[..g] == a + [t.ext] + b[..h] && (a + [t.ext] + b)[g..] == b[h..];
      }
    }
  }

  /** The subtree t holds the extents lo..hi. */
  ghost predicate Stretch(ns: seq<RbExtent>, t: Shape, lo: nat, hi: nat) {
    lo <= hi <= |ns| && InOrder(t) == ns[lo..hi]
  }

  lemma SliceSplit(ns: seq<RbExtent>, lo: nat, hi: nat, a: seq<RbExtent>, x: RbExtent, b: seq<RbExtent>)
    requires lo <= hi <= |ns| && a + [x] + b == ns[lo..hi]
    ensures var k := lo + |a|; k < hi && ns[k] == x && a == ns[lo..k] && b == ns[k + 1..hi]
  {
    var c := a + [x] + b;
    assert ns[lo + |a|] == c[|a|];
    forall i | 0 <= i < |a| ensures ns[lo + i] == a[i] {
      assert ns[lo + i] == c[i];
    }
    forall i | 0 <= i < |b| ensures ns[lo + |a| + 1 + i] == b[i] {
      assert ns[lo + (|a| + 1 + i)] == c[|a| + 1 + i];
    }
  }

  lemma StretchStep(ns: seq<RbExtent>, t: Shape, lo: nat, hi: nat)
    requires Stretch(ns, t, lo, hi) && t.Node?
    ensures var k := lo + |InOrder(t.left)|;
            k < hi && ns[k] == t.ext && Stretch(ns, t.left, lo, k) && Stretch(ns, t.right, k + 1, hi)
  {
    SliceSplit(ns, lo, hi, InOrder(t.left), t.ext, InOrder(t.right));
  }

  /** Puts one tree to the right of another. */
  function Join(l: Shape, r: Shape): (t: Shape) {
    if l == Nil then r else Node(l.left, l.ext, Join(l.right, r))
  }

  lemma {:induction false} JoinInOrder(l: Shape, r: Shape)
    ensures InOrder(Join(l, r)) == InOrder(l) + InOrder(r)
  {
    if l != Nil {
      JoinInOrder(l.right, r);
    }
  }

  /** `ext2fs_rb_erase`. */
  function Erase(t: Shape, x: RbExtent): (t': Shape) {
    match t
    case Nil => Nil
    case Node(l, y, r) => if y == x then Join(l, r) else Node(Erase(l, x), y, Erase(r, x))
  }

  ghost predicate Differ(ns: seq<RbExtent>, i: nat, j: nat)
    requires i < |ns| && j < |ns|
  {
    ns[i] != ns[j]
  }

  ghost predicate Distinct(ns: seq<RbExtent>) {
    forall i, j :: 0 <= i < j < |ns| ==> Differ(ns, i, j)
  }

  lemma DistinctPairs(ns: seq<RbExtent>)
    requires Distinct(ns)
    ensures forall i, j :: 0 <= i < j < |ns| ==> ns[i] != ns[j]
  {
    forall i, j | 0 <= i < j < |ns| ensures ns[i] != ns[j] {
      assert Differ(ns, i, j);
    }
  }

  lemma DistinctFrom(ns: seq<RbExtent>, k: nat)
    requires Distinct(ns) && k < |ns|
    ensures forall i :: 0 <= i < |ns| && i != k ==> ns[i] != ns[k]
  {
    forall i | 0 <= i < |ns| && i != k ensures ns[i] != ns[k] {
      assert if i < k then Differ(ns, i, k) else Differ(ns, k, i);
    }
  }

  lemma {:induction false} EraseAbsent(t: Shape, x: RbExtent)
    requires x !in InOrder(t)
    ensures Erase(t, x) == t
  {
    if t != Nil {
      assert InOrder(t)[|InOrder(t.left)|] == t.ext;
      EraseAbsent(t.left, x);
      EraseAbsent(t.right, x);
    }
  }

  function Without(ns: seq<RbExtent>, i: nat): (ns': seq<RbExtent>)
    requires i < |ns|
  {
    ns[..i] + ns[i + 1..]
  }

  lemma DistinctWithout(ns: seq<RbExtent>, k: nat)
    requires Distinct(ns) && k < |ns|
    ensures Distinct(Without(ns, k)) && ns[k] !in Without(ns, k)
  {
    DistinctPairs(ns);
  }

  lemma DistinctWith(ns: seq<RbExtent>, g: nat, x: RbExtent)
    requires Distinct(ns) && g <= |ns| && x !in ns
    ensures Distinct(ns[..g] + [x] + ns[g..])
  {
    DistinctPairs(ns);
  }

  lemma WithoutConcat(a: seq<RbExtent>, x: RbExtent, b: seq<RbExtent>, i: nat)
    requires i < |a + [x] + b|
    ensures Without(a + [x] + b, i) ==
              if i < |a| then Without(a, i) + [x] + b
              else if i == |a| then a + b
              else a + [x] + Without(b, i - |a| - 1)
  {
  }

  lemma DistinctConcat(a: seq<RbExtent>, x: RbExtent, b: seq<RbExtent>)
    requires Distinct(a + [x] + b)
    ensures Distinct(a) && Distinct(b) && x !in a && x !in b
    ensures forall i :: 0 <= i < |a| ==> a[i] !in b
    ensures forall i :: 0 <= i < |b| ==> b[i] !in a
  {
    var s := a + [x] + b;
    DistinctPairs(s);
    assert s[|a|] == x;
    assert forall i :: 0 <= i < |a| ==> s[i] == a[i];
    assert forall i :: 0 <= i < |b| ==> s[|a| + 1 + i] == b[i];
  }

  lemma {:induction false} EraseInOrder(t: Shape, i: nat)
    requires Distinct(InOrder(t)) && i < |InOrder(t)|
    ensures InOrder(Erase(t, InOrder(t)[i])) == Without(InOrder(t), i)
  {
    var a, b := InOrder(t.left), InOrder(t.right);
    var n, x := |a|, (a + [t.ext] + b)[i];
    DistinctConcat(a, t.ext, b);
    WithoutConcat(a, t.ext, b, i);
    if i == n {
      JoinInOrder(t.left, t.right);
    } else if i < n {
      assert x == a[i];
      EraseAbsent(t.right, x);
      EraseInOrder(t.left, i);
    } else {
      assert x == b[i - n - 1];
      EraseAbsent(t.left, x);
      EraseInOrder(t.right, i - n - 1);
    }
  }

  // ----- Neighbours -----

  function IndexOf(ns: seq<RbExtent>, x: RbExtent): (i: nat)
    ensures i <= |ns| && (i < |ns| ==> ns[i] == x)
    ensures i == |ns| ==> x !in ns
  {
    if ns == [] then 0 else if ns[0] == x then 0 else 1 + IndexOf(ns[1..], x)
  }

  /** `ext2fs_rb_next` and `ext2fs_rb_prev`. */
  function Next(t: Shape, x: RbExtent): (y: RbExtent?) {
    var ns := InOrder(t);
    var i := IndexOf(ns, x);
    if i + 1 < |ns| then ns[i + 1] else null
  }

  function Prev(t: Shape, x: RbExtent): (y: RbExtent?) {
    var ns := InOrder(t);
    var i := IndexOf(ns, x);
    if 0 < i < |ns| then ns[i - 1] else null
  }

  /** `ext2fs_rb_last`. */
  function Last(t: Shape): (y: RbExtent?) {
    var ns := InOrder(t);
    if ns == [] then null else ns[|ns| - 1]
  }

  /** y comes right after x. */
  ghost predicate Follows(ns: seq<RbExtent>, x: RbExtent, y: RbExtent) {
    exists i :: 0 <= i < |ns| - 1 && ns[i] == x && ns[i + 1] == y
  }

  lemma FollowsWithout(ns: seq<RbExtent>, k: nat, x: RbExtent, y: RbExtent)
    requires k < |ns| && Follows(ns, x, y) && ns[k] != x && ns[k] != y
    ensures Follows(Without(ns, k), x, y)
  {
    var i :| 0 <= i < |ns| - 1 && ns[i] == x && ns[i + 1] == y;
    var t := Without(ns, k);
    if i < k {
      assert t[i] == x && t[i + 1] == y;
    } else {
      assert t[i - 1] == x && t[i] == y;
    }
  }

  lemma NextAt(t: Shape, i: nat)
    requires Distinct(InOrder(t)) && i < |InOrder(t)|
    ensures Next(t, InOrder(t)[i]) == if i + 1 < |InOrder(t)| then InOrder(t)[i + 1] else null
    ensures Prev(t, InOrder(t)[i]) == if i > 0 then InOrder(t)[i - 1] else null
  {
    IndexUnique(InOrder(t), i);
  }

  lemma {:induction false} IndexUnique(ns: seq<RbExtent>, i: nat)
    requires Distinct(ns) && i < |ns|
    ensures IndexOf(ns, ns[i]) == i
  {
    DistinctFrom(ns, i);
    assert ns[i] in ns;
  }

  // ----- What the tree stands for -----

  ghost function Vals(ns: seq<RbExtent>): (s: seq<Run>)
    reads ns
    ensures |s| == |ns|
    ensures forall i :: 0 <= i < |ns| ==> s[i] == Run(ns[i].start, ns[i].count)
  {
    seq(|ns|, i requires 0 <= i < |ns| reads ns => Run(ns[i].start, ns[i].count))
  }
}
