/**
 Model of libext2fs/blkmap64_rb.c: a set of bits as a search tree of runs, with a write cursor and
 a read cursor that remember where the last operation ended.
 */
module RbBitmap {
  import opened Runs
  import opened RbTree

  /** The place of bit b between the runs: those before g end too early, those from g on begin after b. */
  ghost predicate Gap(s: seq<Run>, g: nat, b: nat, touching: bool) {
    && g <= |s|
    && (forall m :: 0 <= m < g ==> if touching then s[m].End() < b else s[m].End() <= b)
    && (forall m :: g <= m < |s| ==> b < s[m].start)
  }

  /** The descent has still to look at the runs lo..hi. */
  ghost predicate Narrowed(s: seq<Run>, lo: nat, hi: nat, b: nat, touching: bool) {
    && lo <= hi <= |s|
    && (forall m :: 0 <= m < lo ==> if touching then s[m].End() < b else s[m].End() <= b)
    && (forall m :: hi <= m < |s| ==> b < s[m].start)
  }

  lemma NarrowLeft(s: seq<Run>, lo: nat, hi: nat, k: nat, b: nat, touching: bool)
    requires Canonical(s) && Narrowed(s, lo, hi, b, touching)
    requires lo <= k < hi && b < s[k].start
    ensures Narrowed(s, lo, k, b, touching)
  {
    CanonicalPairs(s);
  }

  lemma NarrowRight(s: seq<Run>, lo: nat, hi: nat, k: nat, b: nat, touching: bool)
    requires Canonical(s) && Narrowed(s, lo, hi, b, touching)
    requires lo <= k < hi && (if touching then s[k].End() < b else s[k].End() <= b)
    ensures Narrowed(s, k + 1, hi, b, touching)
  {
    CanonicalPairs(s);
  }

  /** The descent has come to the subtree t, which holds the runs lo..hi. */
  ghost predicate Searching(ns: seq<RbExtent>, s: seq<Run>, t: Shape, lo: nat, hi: nat, b: nat, touching: bool) {
    Stretch(ns, t, lo, hi) && Narrowed(s, lo, hi, b, touching)
  }

  predicate GoRight(r: Run, b: nat, touching: bool) {
    if touching then b > r.End() else b >= r.End()
  }

  lemma SearchStep(ns: seq<RbExtent>, s: seq<Run>, t: Shape, lo: nat, hi: nat, b: nat, touching: bool)
    requires Canonical(s) && |s| == |ns|
    requires Searching(ns, s, t, lo, hi, b, touching) && t.Node?
    ensures var k := lo + |InOrder(t.left)|;
            && k < hi && ns[k] == t.ext
            && (b < s[k].start ==> Searching(ns, s, t.left, lo, k, b, touching))
            && (GoRight(s[k], b, touching) ==> Searching(ns, s, t.right, k + 1, hi, b, touching))
  {
    StretchStep(ns, t, lo, hi);
    var k := lo + |InOrder(t.left)|;
    if b < s[k].start {
      NarrowLeft(s, lo, hi, k, b, touching);
    }
    if GoRight(s[k], b, touching) {
      NarrowRight(s, lo, hi, k, b, touching);
    }
  }

  /** `struct ext2fs_rb_private`. */
  class Bitmap {
    var root: Shape
    var wcursor: RbExtent?
    var rcursor: RbExtent?
    var rcursorNext: RbExtent?

    /** The extents in the tree, in order. */
    ghost var nodes: seq<RbExtent>

    /** `rb_alloc_private_data`. */
    constructor ()
      ensures Valid() && nodes == [] && Runs() == []
    {
      root, nodes := Nil, [];
      wcursor, rcursor, rcursorNext := null, null, null;
    }

    /** The runs the tree stands for. */
    ghost function Runs(): (s: seq<Run>)
      reads `nodes, nodes
      ensures |s| == |nodes|
      ensures forall i :: 0 <= i < |s| ==> s[i] == Run(nodes[i].start, nodes[i].count)
    {
      Vals(nodes)
    }

    /** No cursor that can be read names an extent outside the tree, and a set rcursor_next is the successor of rcursor. */
    ghost predicate CursorsValid()
      reads this
    {
      && (wcursor != null ==> wcursor in nodes)
      && (rcursor != null ==> rcursor in nodes)
      && (rcursor != null && rcursorNext != null ==> Follows(nodes, rcursor, rcursorNext))
    }

    ghost predicate Shaped()
      reads this
    {
      nodes == InOrder(root) && Distinct(nodes)
    }

    ghost predicate Valid()
      reads this, nodes
    {
      Shaped() && Canonical(Runs()) && CursorsValid()
    }

    /** One turn of the loop that goes down the tree: stops at n, or goes on with a child of n. */
    method Descend(n: Shape, lo: nat, ghost hi: nat, b: nat, touching: bool)
      returns (stop: bool, n': Shape, lo': nat, ghost hi': nat, ghost k: nat)
      requires Canonical(Runs())
      requires Searching(nodes, Runs(), n, lo, hi, b, touching) && n.Node?
      ensures k < |nodes| && nodes[k] == n.ext
      ensures stop ==> lo' == k && n.ext.start <= b && !GoRight(Runs()[k], b, touching)
      ensures !stop ==> Searching(nodes, Runs(), n', lo', hi', b, touching) && n' < n && (k == lo' - 1 || k == hi')
    {
      SearchStep(nodes, Runs(), n, lo, hi, b, touching);
      k := lo + |InOrder(n.left)|;
      if b < n.ext.start {
        return false, n.left, lo, k, k;
      } else if (if touching then b > n.ext.End() else b >= n.ext.End()) {
        return false, n.right, lo + |InOrder(n.left)| + 1, hi, k;
      } else {
        return true, n, lo + |InOrder(n.left)|, hi, k;
      }
    }

    /**
     The descent that all operations begin with; g is the run found, or the empty link reached.
     `touching` tells the two forms of the loop apart: an insertion also stops at a run that ends
     just before b.
     */
    method Find(b: nat, touching: bool) returns (ext: RbExtent?, parent: RbExtent?, g: nat)
      requires nodes == InOrder(root) && Canonical(Runs())
      ensures g <= |nodes|
      ensures ext != null ==> g < |nodes| && ext == nodes[g] && Runs()[g].start <= b && !GoRight(Runs()[g], b, touching)
      ensures ext != null ==> parent == ext
      ensures ext == null ==> Gap(Runs(), g, b, touching)
      ensures ext == null ==> (parent == null <==> nodes == [])
      ensures ext == null && parent != null ==>
                (g > 0 && parent == nodes[g - 1]) || (g < |nodes| && parent == nodes[g])
    {
      var n, lo: nat := root, 0;
      parent := null;
      ghost var hi: nat, at := |nodes|, -1;
      while n.Node?
        invariant Searching(nodes, Runs(), n, lo, hi, b, touching)
        invariant (parent == null && n == root) || (0 <= at < |nodes| && parent == nodes[at] && (at == lo - 1 || at == hi))
        decreases n
      {
        parent := n.ext;
        var stop;
        stop, n, lo, hi, at := Descend(n, lo, hi, b, touching);
        if stop {
          return parent, parent, lo;
        }
      }
      return null, parent, lo;
    }

    /** While an insertion is under way: rcursor_next is cleared, and no cursor names an extent outside the tree. */
    ghost predicate Inserting()
      reads this
    {
      Shaped() && CursorsValid() && rcursorNext == null
    }

    /** Makes an extent in the empty link g; it becomes the write cursor. */
    method LinkNew(g: nat, start: nat, count: nat) returns (x: RbExtent)
      requires Shaped() && g <= |nodes|
      modifies this`root, this`nodes, this`wcursor
      ensures Shaped() && fresh(x) && x.start == start && x.count == count
      ensures nodes == old(nodes[..g]) + [x] + old(nodes[g..])
      ensures wcursor == x
      ensures forall y :: y in nodes ==> y in old(nodes) || y == x
      ensures Runs() == With(old(Runs()), g, Run(start, count))
    {
      x := new RbExtent(start, count);
      LinkInOrder(root, g, x);
      DistinctWith(nodes, g, x);
      root := Link(root, g, x);
      nodes := nodes[..g] + [x] + nodes[g..];
      wcursor := x;
      assert Runs() == With(old(Runs()), g, Run(start, count));
    }

    /** `ext2fs_rb_erase` and `rb_free_extent`: the extent i leaves the tree, and no cursor keeps it. */
    method EraseFree(x: RbExtent, ghost i: nat)
      requires Shaped() && i < |nodes| && nodes[i] == x
      modifies this
      ensures Shaped() && nodes == Without(old(nodes), i)
      ensures old(CursorsValid()) ==> CursorsValid()
      ensures old(rcursorNext) == null ==> rcursorNext == null
      ensures wcursor == if old(wcursor) == x then null else old(wcursor)
    {
      EraseInOrder(root, i);
      DistinctWithout(nodes, i);
      if rcursor != null && rcursorNext != null && x != rcursor && x != rcursorNext && Follows(nodes, rcursor, rcursorNext) {
        FollowsWithout(nodes, i, rcursor, rcursorNext);
      }
      root := Erase(root, x);
      nodes := Without(nodes, i);
      if wcursor == x { wcursor := null; }
      if rcursor == x { rcursor := null; }
      if rcursorNext == x { rcursorNext := null; }
    }

    /** One turn of the merging loop of `rb_insert_extent`: the run j is looked at, and absorbed if it touches. */
    method AbsorbOne(node: RbExtent, start: nat, count: nat, ghost i: nat) returns (erased: bool, again: bool, count': nat)
      requires Inserting() && i < |nodes| && nodes[i] == node
      requires node.count > 0 && start < node.start
      modifies this
      ensures Inserting()
      ensures if start + count < node.start then !erased && !again && count' == count && nodes == old(nodes)
              else erased && nodes == Without(old(nodes), i) &&
                   if node.End() <= start + count then again && count' == count else !again && start + count' == node.End()
    {
      count' := count;
      if node.End() <= start {
        assert false;
      }
      // No more merging.
      if start + count < node.start {
        return false, false, count';
      }
      if start + count >= node.End() {
        EraseFree(node, i);
        erased, again := true, true;
      } else {
        count' := count' + (node.End() - (start + count));
        EraseFree(node, i);
        erased, again := true, false;
      }
    }

    /** The merging loop has come to the extent `node`, number j of the list ns, s; or it is done. */
    ghost predicate Absorbing(ns: seq<RbExtent>, s: seq<Run>, k: nat, j: nat, end: nat, end': nat, again: bool, node: RbExtent?)
      reads this
    {
      && Inserting() && k < j <= |ns| == |s| && nodes == Cut(ns, k, j)
      && match again
         case true => Swallowing(s, k, j, end, end', true) && node == if j < |ns| then ns[j] else null
         case false => Swallowed(s, k, j, end, end')
    }

    /** The extent behind number j of ns. */
    method NextOf(node: RbExtent, ghost ns: seq<RbExtent>, ghost k: nat, ghost j: nat) returns (node': RbExtent?)
      requires Shaped() && k < j < |ns| && nodes == Cut(ns, k, j) && node == ns[j]
      ensures node' == if j + 1 < |ns| then ns[j + 1] else null
      ensures k + 1 < |nodes| && nodes[k + 1] == node && Without(nodes, k + 1) == Cut(ns, k, j + 1)
    {
      CutStep(ns, k, j);
      NextAt(root, k + 1);
      node' := Next(root, node);
    }

    /** One turn, seen from the list ns, s of all extents: the run j is looked at, and j' is next. */
    method AbsorbStep(node: RbExtent, start: nat, count: nat, ghost ns: seq<RbExtent>, ghost s: seq<Run>,
                      ghost k: nat, ghost j: nat, ghost end: nat)
      returns (again: bool, node': RbExtent?, count': nat, ghost j': nat)
      requires Absorbing(ns, s, k, j, end, start + count, true, node)
      requires s[j] == Run(node.start, node.count) && TailSorted(s, k, start) && end == start + count
      modifies this
      ensures j <= j' && (again ==> j' == j + 1)
      ensures Absorbing(ns, s, k, j', end, start + count', again, node')
    {
      SwallowStep(s, k, j, start, end, end);
      assert BeginsAfter(s, j, start);
      node' := NextOf(node, ns, k, j);
      var erased;
      erased, again, count' := AbsorbOne(node, start, count, k + 1);
      j' := if erased then j + 1 else j;
    }

    /** The extent behind x, where the loop begins. */
    method FirstRight(x: RbExtent, ghost start: nat, ghost end: nat, ghost k: nat) returns (node: RbExtent?)
      requires Inserting() && k < |nodes| && nodes[k] == x && TailSorted(Runs(), k, start)
      ensures Absorbing(nodes, Runs(), k, k + 1, end, end, true, node)
    {
      NextAt(root, k);
      node := Next(root, x);
      SwallowStart(Runs(), k, start, end);
      CutStart(nodes, k);
    }

    /** The loop: the extents k + 1 .. j disappear into start..start + count'. */
    method AbsorbRight(x: RbExtent, start: nat, count: nat, ghost k: nat) returns (count': nat, ghost j: nat)
      requires Inserting() && k < |nodes| && nodes[k] == x
      requires TailSorted(Runs(), k, start)
      modifies this
      ensures Absorbing(old(nodes), old(Runs()), k, j, start + count, start + count', false, null)
    {
      var node := FirstRight(x, start, start + count, k);
      count', j := AbsorbFrom(node, start, count, nodes, Runs(), k);
    }

    method AbsorbFrom(first: RbExtent?, start: nat, count: nat, ghost ns: seq<RbExtent>, ghost s: seq<Run>, ghost k: nat)
      returns (count': nat, ghost j: nat)
      requires Absorbing(ns, s, k, k + 1, start + count, start + count, true, first) && s == Vals(ns) && TailSorted(s, k, start)
      modifies this
      ensures Absorbing(ns, s, k, j, start + count, start + count', false, null)
    {
      ghost var end := start + count;
      count', j := count, k + 1;
      var node, again := first, true;
      while again && node != null
        invariant Absorbing(ns, s, k, j, end, start + count', again, node)
        decreases |ns| - j, again
      {
        assert s[j] == Run(node.start, node.count);
        again, node, count', j := AbsorbStep(node, start, count', ns, s, k, j, end);
      }
      AbsorbEnds(ns, s, k, j, end, start + count', again, node);
    }

    lemma AbsorbEnds(ns: seq<RbExtent>, s: seq<Run>, k: nat, j: nat, end: nat, end': nat, again: bool, node: RbExtent?)
      requires Absorbing(ns, s, k, j, end, end', again, node) && (!again || node == null)
      ensures Absorbing(ns, s, k, j, end, end', false, null)
    {
      if again {
        SwallowDone(s, k, j, end, end');
      }
    }

    /** An extent of the tree gets new bounds in place. */
    method SetBounds(x: RbExtent, start: nat, count: nat, ghost k: nat)
      requires Shaped() && k < |nodes| && nodes[k] == x
      modifies x
      ensures Runs() == old(Runs())[k := Run(start, count)]
      ensures x.start == start && x.count == count
    {
      DistinctFrom(nodes, k);
      x.start := start;
      x.count := count;
      assert Runs() == old(Runs())[k := Run(start, count)];
    }

    /** From `skip_insert` on: the extent x, number k, becomes the run that begins at start. */
    method Settle(x: RbExtent, start: nat, count: nat, ghost k: nat) returns (ghost j: nat, ghost end: nat)
      requires Inserting() && k < |nodes| && nodes[k] == x
      requires TailSorted(Runs(), k, start)
      modifies this, x
      ensures Inserting() && k < j <= |old(nodes)| && nodes == Cut(old(nodes), k, j) && start <= end
      ensures Runs() == Splice(old(Runs()), k, j, [Run(start, end - start)])
      ensures Swallowed(old(Runs()), k, j, start + count, end)
      ensures forall y :: y in nodes ==> y in old(nodes)
    {
      ghost var ns, s := nodes, Runs();
      var count';
      count', j := AbsorbRight(x, start, count, k);
      assert nodes == Cut(ns, k, j) && Swallowed(s, k, j, start + count, start + count');
      CutMembers(ns, k, j);
      CutVals(ns, k, j);
      SetBounds(x, start, count', k);
      end := start + count';
      SpliceOne(s, k, j, Run(start, count'));
    }

    /** `got_extent`: the range begins in, or right behind, the run g of the extent found. */
    method GrowFound(ext: RbExtent, start: nat, count: nat, ghost g: nat) returns (retval: bool)
      requires Inserting() && Canonical(Runs()) && g < |nodes| && nodes[g] == ext
      requires ext.start <= start <= ext.End() && count > 0
      modifies this, ext
      ensures Inserting() && Union(old(Runs()), Runs(), start, start + count)
      ensures retval <==> start < old(ext.End())
      ensures forall x :: x in nodes ==> x in old(nodes)
    {
      ghost var s := Runs();
      CanonicalTail(s, g, ext.start);
      if start + count <= ext.End() {
        AlreadySet(s, g, start, start + count);
        return true;
      }
      retval := ext.End() != start;
      var j, end := Settle(ext, ext.start, count + (start - ext.start), g);
      FoundUnion(s, Runs(), g, j, start, start + count, end);
    }

    /** `See if we can merge extent to the left`: there is never anything to merge. */
    method CheckLeft(newExt: RbExtent, ghost s: seq<Run>, ghost g: nat, ghost r: Run)
      requires Shaped() && g < |nodes| && nodes[g] == newExt
      requires Gap(s, g, r.start, true) && Runs() == With(s, g, r)
    {
      NextAt(root, g);
      var node := Prev(root, newExt);
      if node != null {
        assert With(s, g, r)[g - 1] == s[g - 1];
        if node.End() == r.start {
          assert false;
        }
      }
    }

    /** A new extent in the empty link g, not yet merged with what follows. */
    method MakeNew(start: nat, count: nat, g: nat) returns (newExt: RbExtent)
      requires Inserting() && Canonical(Runs()) && Gap(Runs(), g, start, true) && count > 0
      modifies this
      ensures Inserting() && g < |nodes| && nodes[g] == newExt && fresh(newExt)
      ensures Runs() == With(old(Runs()), g, Run(start, count)) && TailSorted(Runs(), g, start)
      ensures forall x :: x in nodes ==> x in old(nodes) || x == newExt
    {
      ghost var s, r := Runs(), Run(start, count);
      newExt := LinkNew(g, start, count);
      CheckLeft(newExt, s, g, r);
      NewTail(s, g, r);
    }

    method GrowNew(start: nat, count: nat, g: nat)
      requires Inserting() && Canonical(Runs()) && Gap(Runs(), g, start, true) && count > 0
      modifies this
      ensures Inserting() && Union(old(Runs()), Runs(), start, start + count)
      ensures forall x :: x in nodes ==> x in old(nodes) || fresh(x)
    {
      ghost var s := Runs();
      var newExt := MakeNew(start, count, g);
      ghost var v := Runs();
      ghost var j, end := Settle(newExt, start, count, g);
      ghost var t := Runs();
      NewUnion(s, v, t, g, j, start, count, end);
    }

    /** `rb_insert_extent`: marks count bits from start on, and tells whether the first of them was set. */
    method InsertExtent(start: nat, count: nat) returns (retval: bool)
      requires Valid()
      modifies this, nodes
      ensures Valid() && Union(old(Runs()), Runs(), start, start + count)
      ensures count > 0 ==> (retval <==> Has(old(Runs()), start))
      ensures forall x :: x in nodes ==> x in old(nodes) || fresh(x)
    {
      if count == 0 {
        return false;
      }
      rcursorNext := null;
      var ext := wcursor;
      if ext != null && ext.start <= start <= ext.End() {
        ghost var i :| 0 <= i < |nodes| && nodes[i] == ext;
        FoundHas(Runs(), i, start);
        retval := GrowFound(ext, start, count, i);
      } else {
        retval := InsertAtFound(start, count);
      }
    }

    /** The rest of `rb_insert_extent`, without the cursor for writing. */
    method InsertAtFound(start: nat, count: nat) returns (retval: bool)
      requires Valid() && rcursorNext == null && count > 0
      modifies this, nodes
      ensures Valid() && Union(old(Runs()), Runs(), start, start + count)
      ensures retval <==> Has(old(Runs()), start)
      ensures forall x :: x in nodes ==> x in old(nodes) || fresh(x)
    {
      var ext, parent, g := Find(start, true);
      if ext != null {
        FoundHas(Runs(), g, start);
        retval := GrowFound(ext, start, count, g);
      } else {
        GapHas(Runs(), g, start);
        GrowNew(start, count, g);
        retval := false;
      }
    }

    // ----- Removal -----

    /** One turn of the loop that removes or cuts the extents on the right; i is the extent looked at. */
    method RemoveStep(node: RbExtent, start: nat, end: nat, ghost i: nat, ghost pos: nat)
      returns (again: bool, hit: bool, ghost pos': nat)
      requires Valid() && i < |nodes| && nodes[i] == node
      requires Reached(Runs(), i, start, pos, end) && Runs()[i].End() > start
      modifies this, node
      ensures Valid() && pos <= pos' <= end && Minus(old(Runs()), Runs(), pos, pos')
      ensures hit <==> old(Runs())[i].start <= end
      ensures !hit ==> !again && Runs() == old(Runs())
      ensures if again then nodes == Without(old(nodes), i) && Reached(Runs(), i, start, pos', end)
              else nodes == old(nodes) && pos' == end
    {
      ghost var s := Runs();
      assert s[i] == Run(node.start, node.count);
      // No more extents to be removed or truncated.
      if end < node.start {
        ReachedEnd(s, i, start, pos, end);
        return false, false, end;
      }
      // The entire extent is within the region to be removed.
      if end >= node.End() {
        ReachedErase(s, i, start, pos, end);
        pos' := node.End();
        EraseFree(node, i);
        assert Runs() == Splice(s, i, i + 1, []);
        return true, true, pos';
      }
      // Modify the last extent in the region to be removed.
      ReachedCut(s, i, start, pos, end);
      SetBounds(node, end, node.End() - end, i);
      assert Runs() == Splice(s, i, i + 1, [Run(end, s[i].End() - end)]);
      return false, true, end;
    }

    /** The same with the step to the next extent; s0 are the runs before the loop. */
    method RemoveTurn(node: RbExtent, start: nat, end: nat, ghost s0: seq<Run>, ghost i: nat, ghost pos: nat, any: bool)
      returns (again: bool, any': bool, next: RbExtent?, ghost i': nat, ghost pos': nat)
      requires Valid() && i < |nodes| && nodes[i] == node
      requires Removing(s0, Runs(), i, start, pos, end, any)
      modifies this, node
      ensures Valid() && |nodes| <= |old(nodes)| && i' <= |nodes| && (forall x :: x in nodes ==> x in old(nodes))
      ensures again ==> |nodes| - i' < |old(nodes)| - i && next == if i' < |nodes| then nodes[i'] else null
      ensures if again then Removing(s0, Runs(), i', start, pos', end, any')
              else Minus(s0, Runs(), start, end) && (any' <==> Meets(s0, start, end))
    {
      ghost var s := Runs();
      assert s[i] == Run(node.start, node.count);
      NextAt(root, i);
      next := Next(root, node);
      if node.End() <= start {
        RemovingOn(s0, s, i, start, pos, end, any);
        return true, any, next, i + 1, pos;
      }
      RemovingHit(s0, s, i, start, pos, end, any);
      var hit;
      again, hit, pos' := RemoveStep(node, start, end, i, pos);
      MinusTrans(s0, s, Runs(), start, pos, pos');
      any' := any || hit;
      i' := i;
    }

    /** `See if we should delete or truncate extent on the right`, from the extent g on; all extents are among ns. */
    method RemoveRight(parent: RbExtent?, start: nat, end: nat, ghost g: nat, any: bool, ghost ns: seq<RbExtent>)
      returns (any': bool)
      requires Valid() && start <= end && (forall x :: x in nodes ==> x in ns)
      requires parent == null ==> g == |nodes|
      requires parent != null ==> g < |nodes| && nodes[g] == parent
      requires Removing(Runs(), Runs(), g, start, start, end, false)
      modifies this, ns
      ensures Valid() && (forall x :: x in nodes ==> x in old(nodes))
      ensures Minus(old(Runs()), Runs(), start, end) && (any' <==> any || Meets(old(Runs()), start, end))
    {
      ghost var s0 := Runs();
      var node, again, hit := parent, true, false;
      ghost var i: nat, pos: nat := g, start;
      while again && node != null
        invariant Valid() && i <= |nodes| && (forall x :: x in nodes ==> x in old(nodes))
        invariant again ==> node == if i < |nodes| then nodes[i] else null
        invariant again ==> Removing(s0, Runs(), i, start, pos, end, hit)
        invariant !again ==> Minus(s0, Runs(), start, end) && (hit <==> Meets(s0, start, end))
        decreases again, |nodes| - i
      {
        assert node in nodes;
        again, hit, node, i, pos := RemoveTurn(node, start, end, s0, i, pos, hit);
      }
      if again {
        RemovingDone(s0, Runs(), i, start, pos, end, hit);
      }
      any' := any || hit;
    }

    /** `We have to split extent into two`: the end of the extent g is cut off and inserted again. */
    method SplitFound(ext: RbExtent, start: nat, count: nat, ghost g: nat)
      requires Valid() && g < |nodes| && nodes[g] == ext
      requires ext.start < start && start + count < ext.End()
      modifies this, nodes
      ensures Valid() && Minus(old(Runs()), Runs(), start, start + count)
      ensures forall x :: x in nodes ==> x in old(nodes) || fresh(x)
    {
      ghost var s := Runs();
      assert s[g] == Run(ext.start, ext.count);
      var newStart := start + count;
      var newCount := ext.End() - newStart;
      CutTail(s, g, start);
      SetBounds(ext, ext.start, start - ext.start, g);
      ghost var s1 := Runs();
      var _ := InsertExtent(newStart, newCount);
      SplitRuns(s, s1, Runs(), g, start, newStart, newStart + newCount);
    }

    /** The extent g begins at start and is covered by the range: it disappears. */
    method EraseFound(ext: RbExtent, start: nat, ghost g: nat) returns (next: RbExtent?, ghost mid: nat)
      requires Valid() && g < |nodes| && nodes[g] == ext && ext.start == start
      modifies this
      ensures Valid() && (forall x :: x in nodes ==> x in old(nodes))
      ensures mid == old(ext.End()) && Minus(old(Runs()), Runs(), start, mid)
      ensures g <= |nodes| && next == (if g < |nodes| then nodes[g] else null) && Reached(Runs(), g, start, start, mid)
    {
      ghost var s := Runs();
      assert s[g] == Run(ext.start, ext.count);
      mid := ext.End();
      EraseRuns(s, g);
      next := EraseAt(ext, g);
    }

    /** The extent g disappears; the one behind it is the next one. */
    method EraseAt(ext: RbExtent, ghost g: nat) returns (next: RbExtent?)
      requires Valid() && g < |nodes| && nodes[g] == ext && Canonical(Splice(Runs(), g, g + 1, []))
      modifies this
      ensures Valid() && (forall x :: x in nodes ==> x in old(nodes))
      ensures g <= |nodes| && next == if g < |nodes| then nodes[g] else null
      ensures Runs() == Splice(old(Runs()), g, g + 1, [])
    {
      NextAt(root, g);
      next := Next(root, ext);
      ghost var s := Runs();
      EraseFree(ext, g);
      assert Runs() == Splice(s, g, g + 1, []);
    }

    /** The extent g holds start, and the range goes on at least to its end: it is cut short. */
    method TruncateFound(ext: RbExtent, start: nat, ghost g: nat) returns (ghost mid: nat)
      requires Valid() && g < |nodes| && nodes[g] == ext && ext.start < start < ext.End()
      modifies ext
      ensures Valid() && mid == old(ext.End()) && Minus(old(Runs()), Runs(), start, mid)
    {
      ghost var s := Runs();
      assert s[g] == Run(ext.start, ext.count);
      mid := ext.End();
      CutTail(s, g, start);
      SetBounds(ext, ext.start, start - ext.start, g);
    }

    /** The extent g begins at start and goes on beyond the range: it loses its first bits. */
    method TrimFound(ext: RbExtent, start: nat, count: nat, ghost g: nat)
      requires Valid() && g < |nodes| && nodes[g] == ext && ext.start == start && start + count < ext.End()
      modifies ext
      ensures Valid() && Minus(old(Runs()), Runs(), start, start + count)
    {
      ghost var s := Runs();
      assert s[g] == Run(ext.start, ext.count);
      TrimHead(s, g, start + count);
      SetBounds(ext, ext.start + count, ext.count - count, g);
    }

    /** `rb_remove_extent`: clears count bits from start on. */
    method RemoveExtent(start: nat, count: nat) returns (retval: bool)
      requires Valid()
      modifies this, nodes
      ensures Valid() && Minus(old(Runs()), Runs(), start, start + count)
      ensures retval <==> Meets(old(Runs()), start, start + count)
      ensures forall x :: x in nodes ==> x in old(nodes) || fresh(x)
    {
      if root.Nil? {
        NothingRemoved(Runs(), 0, start, start + count);
        return false;
      }
      ghost var s := Runs();
      var ext, parent, g := Find(start, false);
      if ext == null {
        ghost var i := GapReached(s, nodes, g, parent, start, start + count);
        retval := RemoveRight(parent, start, start + count, i, false, nodes);
        return;
      }
      assert s[g] == Run(ext.start, ext.count);
      if ext.start < start && start + count < ext.End() {
        SplitFound(ext, start, count, g);
        return true;
      }
      if start + count >= ext.End() {
        retval := RemoveCovered(ext, start, count, g);
        return;
      }
      TrimFound(ext, start, count, g);
      return true;
    }

    /** The range goes on at least to the end of the extent found: after cutting that, look at what follows. */
    method RemoveCovered(ext: RbExtent, start: nat, count: nat, ghost g: nat) returns (retval: bool)
      requires Valid() && g < |nodes| && nodes[g] == ext
      requires ext.start <= start < ext.End() <= start + count
      modifies this, nodes
      ensures Valid() && Minus(old(Runs()), Runs(), start, start + count) && retval
      ensures forall x :: x in nodes ==> x in old(nodes)
    {
      ghost var s := Runs();
      ghost var mid, i;
      var parent;
      if ext.start == start {
        parent, mid := EraseFound(ext, start, g);
        i := g;
      } else {
        assert ext in nodes;
        mid := TruncateFound(ext, start, g);
        // The descent goes on below ext; it is the descent for start in the tree as it is now.
        var none, h;
        none, parent, h := Find(start, false);
        HolderGone(s, Runs(), start, mid, h, none != null);
        i := GapReached(Runs(), nodes, h, parent, start, start + count);
      }
      ghost var s1 := Runs();
      ReachedFar(s1, i, start, mid, start + count);
      var _ := RemoveRight(parent, start, start + count, i, true, old(nodes));
      MinusCover(s, s1, Runs(), start, mid, start + count);
      retval := true;
    }

    // ----- Resizing -----

    /** `ext2fs_rb_erase` of the last extent; `rb_truncate` does not look at the cursors. */
    method DropLast(x: RbExtent)
      requires Shaped() && nodes != [] && nodes[|nodes| - 1] == x
      modifies `root, `nodes
      ensures Shaped() && nodes == old(nodes)[..|old(nodes)| - 1] && Runs() == old(Runs())[..|old(nodes)| - 1]
    {
      EraseInOrder(root, |nodes| - 1);
      DistinctWithout(nodes, |nodes| - 1);
      root, nodes := Erase(root, x), nodes[..|nodes| - 1];
    }

    /** One turn of the loop of `rb_truncate`, on the last extent. */
    method TruncateStep(x: RbExtent, newMax: nat, ghost s: seq<Run>) returns (done: bool)
      requires Shaped() && nodes != [] && nodes[|nodes| - 1] == x && Capping(s, Runs(), newMax)
      modifies `root, `nodes, x
      ensures Shaped() && Capping(s, Runs(), newMax) && (done ==> Capped(s, Runs(), newMax))
      ensures nodes == old(nodes) || nodes == old(nodes)[..|old(nodes)| - 1]
      ensures !done ==> |nodes| < |old(nodes)| || x.End() < old(x.End())
    {
      ghost var n := |nodes| - 1;
      assert Runs()[n] == Run(x.start, x.count);
      if x.End() - 1 <= newMax {
        CappedAll(s, Runs(), newMax);
        return true;
      } else if x.start > newMax {
        CapDrop(s, Runs(), newMax);
        DropLast(x);
      } else {
        CapCut(s, Runs(), newMax);
        SetBounds(x, x.start, newMax - x.start + 1, n);
      }
      return false;
    }

    /** `rb_truncate`: no bit after newMax stays. */
    method Truncate(newMax: nat)
      requires Shaped() && Canonical(Runs())
      modifies `root, `nodes, nodes
      ensures Shaped() && Capped(old(Runs()), Runs(), newMax)
      ensures forall i :: 0 <= i < |nodes| ==> nodes[i] in old(nodes)
    {
      ghost var s := Runs();
      var node := Last(root);
      while node != null
        invariant Shaped() && Capping(s, Runs(), newMax)
        invariant node == if nodes == [] then null else nodes[|nodes| - 1]
        invariant forall i :: 0 <= i < |nodes| ==> nodes[i] in old(nodes)
        decreases |nodes|, if node == null then 0 else node.End()
      {
        var done := TruncateStep(node, newMax, s);
        if done {
          return;
        }
        node := Last(root);
      }
    }

    /**
     `rb_resize_bmap`, with the ends of the bitmap counted from its first bit: the bits in use in both
     sizes stay, and those stored beyond the new end are set.
     */
    method Resize(end: nat, newEnd: nat, newRealEnd: nat)
      requires Valid()
      modifies this, nodes
      ensures Valid()
      ensures Resized(old(Runs()), Runs(), if newEnd < end then newEnd else end, newEnd, newRealEnd)
    {
      rcursor, wcursor := null, null;
      Truncate(if newEnd < end then newEnd else end);
      if newEnd < newRealEnd {
        var _ := InsertExtent(newEnd + 1, newRealEnd - newEnd);
      }
    }

    /** `rb_clear_bmap`. */
    method ClearAll()
      requires Valid()
      modifies this
      ensures Valid() && (forall b: nat :: !Has(Runs(), b))
    {
      root, nodes := Nil, [];
      rcursor, rcursorNext, wcursor := null, null, null;
    }

    // ----- Tests and searches -----

    /** Is the bit between the read cursor and the extent after it? That extent is remembered. */
    method InCachedGap(bit: nat) returns (hit: bool)
      requires Valid() && rcursor != null
      modifies `rcursorNext
      ensures Valid() && (hit ==> !Has(Runs(), bit))
    {
      var next := rcursorNext;
      if next == null {
        ghost var i :| 0 <= i < |nodes| && nodes[i] == rcursor;
        NextAt(root, i);
        next := Next(root, rcursor);
        rcursorNext := next;
      }
      hit := next != null && rcursor.End() <= bit < next.start;
      if hit {
        ghost var i :| 0 <= i < |nodes| - 1 && nodes[i] == rcursor && nodes[i + 1] == next;
        BetweenClear(Runs(), i, bit);
      }
    }

    /** Is the bit in the extent a cursor names? */
    method InCursor(cursor: RbExtent?, bit: nat) returns (hit: bool)
      requires Valid() && (cursor != null ==> cursor in nodes)
      ensures hit ==> Has(Runs(), bit)
    {
      hit := cursor != null && cursor.start <= bit < cursor.End();
      if hit {
        HolderHas(nodes, cursor, bit);
      }
    }

    /** `search_tree`: an extent found becomes the read cursor. */
    method SearchBit(bit: nat) returns (isSet: bool)
      requires Valid()
      modifies `rcursor, `rcursorNext
      ensures Valid() && (isSet <==> Has(Runs(), bit))
    {
      var ext, _, g := Find(bit, false);
      if ext != null {
        HasAt(Runs(), g, bit);
        rcursor, rcursorNext := ext, null;
        return true;
      }
      GapHas(Runs(), g, bit);
      return false;
    }

    /** `rb_test_bit`, by way of either cursor or of the tree. */
    method TestBit(bit: nat) returns (isSet: bool)
      requires Valid()
      modifies `rcursor, `rcursorNext
      ensures Valid() && (isSet <==> Has(Runs(), bit))
    {
      if rcursor != null {
        var hit := InCursor(rcursor, bit);
        if hit {
          return true;
        }
        var gap := InCachedGap(bit);
        if gap {
          return false;
        }
        rcursor, rcursorNext := null, null;
        hit := InCursor(wcursor, bit);
        if hit {
          return true;
        }
      }
      isSet := SearchBit(bit);
    }

    /** One turn of the loop of `rb_test_clear_bmap_extent`: the first extent beyond start decides. */
    method ClearTurn(cur: RbExtent, start: nat, end: nat, ghost i: nat) returns (done: bool, clear: bool, next: RbExtent?)
      requires Valid() && i < |nodes| && nodes[i] == cur && start < end
      requires Reached(Runs(), i, start, start, end)
      ensures done ==> (clear <==> AllClear(Runs(), start, end))
      ensures !done ==> Reached(Runs(), i + 1, start, start, end)
      ensures next == if i + 1 < |nodes| then nodes[i + 1] else null
    {
      NextAt(root, i);
      next := Next(root, cur);
      assert Runs()[i] == Run(cur.start, cur.count);
      if cur.End() <= start {
        return false, true, next;
      }
      ClearUntil(Runs(), i, start, end);
      return true, end <= cur.start, next;
    }

    /** `rb_test_clear_bmap_extent`. */
    method TestClearExtent(start: nat, len: nat) returns (clear: bool)
      requires Valid()
      ensures clear <==> AllClear(Runs(), start, start + len)
    {
      if len == 0 || root.Nil? {
        return true;
      }
      var ext, node, g := Find(start, false);
      if ext != null {
        HasAt(Runs(), g, start);
        return false;
      }
      ghost var i := GapReached(Runs(), nodes, g, node, start, start + len);
      clear := ClearFrom(node, start, start + len, i);
    }

    /** The loop of it. */
    method ClearFrom(first: RbExtent?, start: nat, end: nat, ghost k: nat) returns (clear: bool)
      requires Valid() && k <= |nodes| && first == (if k < |nodes| then nodes[k] else null) && start < end
      requires Reached(Runs(), k, start, start, end)
      ensures clear <==> AllClear(Runs(), start, end)
    {
      var node := first;
      ghost var i := k;
      while node != null
        invariant i <= |nodes| && node == (if i < |nodes| then nodes[i] else null)
        invariant Reached(Runs(), i, start, start, end)
        decreases |nodes| - i
      {
        var done;
        done, clear, node := ClearTurn(node, start, end, i);
        if done {
          return;
        }
        i := i + 1;
      }
      return true;
    }

    /** `rb_find_first_zero`. On an empty tree it finds nothing, whatever the range. */
    method FindFirstZero(start: nat, end: nat) returns (out: Found)
      requires Valid()
      ensures FirstZero(Runs(), start, end, out) <==> (start > end || nodes != [])
      ensures start <= end && nodes == [] ==> out == Nowhere
    {
      if start > end {
        return Invalid;
      }
      if root.Nil? {
        assert !Has(Runs(), start);
        return Nowhere;
      }
      var ext, _, g := Find(start, false);
      if ext != null {
        InsideSet(Runs(), g, start, ext.End());
        EndClear(Runs(), g);
        return if ext.End() <= end then At(ext.End()) else Nowhere;
      }
      GapHas(Runs(), g, start);
      return At(start);
    }

    /** `rb_find_first_set`. */
    method FindFirstSet(start: nat, end: nat) returns (out: Found)
      requires Valid()
      ensures FirstSet(Runs(), start, end, out)
    {
      if start > end {
        return Invalid;
      }
      if root.Nil? {
        return Nowhere;
      }
      var ext, node, g := Find(start, false);
      if ext != null {
        HasAt(Runs(), g, start);
        return At(start);
      }
      GapFirst(Runs(), g, start, end);
      if node.start < start {
        GapParent(Runs(), g, start);
        NextAt(root, g - 1);
        node := Next(root, node);
        if node == null {
          return Nowhere;
        }
      }
      return if node.start <= end then At(node.start) else Nowhere;
    }

    // ----- Ranges of bits as bytes -----

    /** The run of ones firstSet..i is added; from there to j are zeroes. */
    method FlushRun(start: nat, i: nat, firstSet: nat, ghost s: seq<Run>, ghost bits: seq<bool>, ghost j: nat)
      requires Valid() && i <= j <= |bits| && AllAre(bits[i..j], false)
      requires Scanned(s, Runs(), start, bits, i, firstSet)
      modifies this, nodes
      ensures Valid() && Scanned(s, Runs(), start, bits, j, -1)
      ensures forall k :: 0 <= k < |nodes| ==> nodes[k] in old(nodes) || fresh(nodes[k])
    {
      ghost var t := Runs();
      var _ := InsertExtent(start + firstSet, i - firstSet);
      ScanInsert(s, t, Runs(), start, bits, firstSet, i, j);
    }

    /** At the beginning of a byte: is it to be stepped over? */
    method ScanByte(start: nat, num: nat, buf: array<bool>, i: nat, firstSet: int, ghost s: seq<Run>)
      returns (skip: bool, first: int)
      requires Valid() && i < num <= buf.Length && i + 8 <= buf.Length && firstSet < num
      requires Scanned(s, Runs(), start, buf[..num], i, firstSet)
      ensures skip ==> first < num && Scanned(s, Runs(), start, buf[..num], Within(i + 8, buf[..num]), first)
    {
      ghost var bits := buf[..num];
      if AllAre(buf[i..i + 8], true) {
        ByteBits(buf[..], num, i, true);
        ScanSkip(s, Runs(), start, bits, i, Within(i + 8, bits), firstSet, true);
        return true, if firstSet == -1 then i else firstSet;
      }
      if AllAre(buf[i..i + 8], false) && firstSet == -1 {
        ByteBits(buf[..], num, i, false);
        ScanSkip(s, Runs(), start, bits, i, Within(i + 8, bits), firstSet, false);
        return true, firstSet;
      }
      return false, firstSet;
    }

    /** One bit: a zero after ones ends the run. */
    method ScanBit(start: nat, i: nat, firstSet: int, bit: bool, ghost s: seq<Run>, ghost bits: seq<bool>) returns (first: int)
      requires Valid() && i < |bits| && bits[i] == bit && Scanned(s, Runs(), start, bits, i, firstSet)
      modifies this, nodes
      ensures Valid() && first < |bits| && Scanned(s, Runs(), start, bits, i + 1, first)
      ensures forall k :: 0 <= k < |nodes| ==> nodes[k] in old(nodes) || fresh(nodes[k])
    {
      assert AllAre(bits[i..i + 1], bit);
      if bit || firstSet == -1 {
        ScanSkip(s, Runs(), start, bits, i, i + 1, firstSet, bit);
        return if bit && firstSet == -1 then i else firstSet;
      }
      FlushRun(start, i, firstSet, s, bits, i + 1);
      return -1;
    }

    /** One turn of the scan: a byte is stepped over, or one bit read. */
    method ScanOn(start: nat, num: nat, buf: array<bool>, i: nat, firstSet: int, ghost s: seq<Run>, ghost bits: seq<bool>)
      returns (i': nat, first: int)
      requires Valid() && i < num <= buf.Length && buf.Length % 8 == 0 && firstSet < num && bits == buf[..num]
      requires Scanned(s, Runs(), start, bits, i, firstSet)
      modifies this, nodes
      ensures i < i' && Valid() && first < num && Scanned(s, Runs(), start, bits, Within(i', bits), first)
      ensures forall k :: 0 <= k < |nodes| ==> nodes[k] in old(nodes) || fresh(nodes[k])
    {
      if i % 8 == 0 {
        var skip;
        skip, first := ScanByte(start, num, buf, i, firstSet, s);
        if skip {
          return i + 8, first;
        }
      }
      first := ScanBit(start, i, firstSet, buf[i], s, bits);
      i' := i + 1;
    }

    /**
     `rb_set_bmap_range`: adds the bits of a buffer. A byte of ones, or of zeroes between runs, is
     stepped over whole, even where it reaches beyond num.
     */
    method SetRange(start: nat, num: nat, buf: array<bool>)
      requires Valid() && num <= buf.Length && buf.Length % 8 == 0
      modifies this, nodes
      ensures Valid() && Added(old(Runs()), Runs(), start, buf[..num])
    {
      ghost var s, bits := Runs(), buf[..num];
      var i, firstSet := 0, -1;
      while i < num
        invariant Valid() && (forall k :: 0 <= k < |nodes| ==> nodes[k] in old(nodes) || fresh(nodes[k]))
        invariant firstSet < num && Scanned(s, Runs(), start, bits, Within(i, bits), firstSet)
      {
        i, firstSet := ScanOn(start, num, buf, i, firstSet, s, bits);
      }
      if firstSet != -1 {
        FlushRun(start, num, firstSet, s, bits, num);
      }
    }

    /** The part of an extent inside the range is set in the buffer. */
    method CopyExtent(ext: RbExtent, start: nat, num: nat, out: array<bool>, ghost i: nat)
      requires Valid() && i < |nodes| && nodes[i] == ext && ext.start < start + num
      requires Copied(Runs()[..i], start, num, out[..])
      modifies out
      ensures Copied(Runs()[..i + 1], start, num, out[..])
      ensures forall k :: num <= k < out.Length ==> out[k] == old(out[k])
    {
      ghost var a := out[..];
      assert Runs()[i] == Run(ext.start, ext.count);
      var pos, count := ext.start, ext.count;
      if pos < start {
        if pos + count < start {
          CopiedStep(Runs(), i, start, num, a, a, 0, 0);
          return;
        }
        count := count - (start - pos);
        pos := start;
      }
      if pos + count > start + num {
        count := start + num - pos;
      }
      FillBits(out, pos - start, pos - start + count);
      CopiedStep(Runs(), i, start, num, a, out[..], pos - start, pos - start + count);
    }

    /** The loop of `rb_get_bmap_range` from the extent i on. */
    method CopyRuns(first: RbExtent?, start: nat, num: nat, out: array<bool>, ghost first_i: nat)
      requires Valid() && first_i <= |nodes| && first == (if first_i < |nodes| then nodes[first_i] else null)
      requires Copied(Runs()[..first_i], start, num, out[..])
      modifies out
      ensures Copied(Runs(), start, num, out[..])
      ensures forall k :: num <= k < out.Length ==> out[k] == old(out[k])
    {
      var node := first;
      ghost var i := first_i;
      while node != null && node.start < start + num
        invariant i <= |nodes| && node == (if i < |nodes| then nodes[i] else null)
        invariant Copied(Runs()[..i], start, num, out[..])
        invariant forall k :: num <= k < out.Length ==> out[k] == old(out[k])
        decreases |nodes| - i
      {
        NextAt(root, i);
        var next := Next(root, node);
        CopyExtent(node, start, num, out, i);
        node := next;
        i := i + 1;
      }
      CopiedDone(Runs(), i, start, num, out[..]);
    }

    /**
     `rb_get_bmap_range`: writes the bits of a range, and zeroes up to the end of the last byte. On an
     empty tree the buffer is left as it was.
     */
    method GetRange(start: nat, num: nat, out: array<bool>)
      requires Valid() && (num + 7) / 8 * 8 <= out.Length
      modifies out
      ensures nodes != [] ==> Copied(Runs(), start, num, out[..])
      ensures nodes != [] ==> forall k :: num <= k < (num + 7) / 8 * 8 ==> !out[k]
      ensures forall k :: (if nodes == [] then 0 else (num + 7) / 8 * 8) <= k < out.Length ==> out[k] == old(out[k])
    {
      if root.Nil? {
        return;
      }
      var ext, parent, g := Find(start, false);
      SetBytes(out, 0, (num + 7) / 8, false);
      ghost var i := g;
      if ext == null {
        i := GapReached(Runs(), nodes, g, parent, start, start);
      }
      CopiedStart(Runs(), i, start, num, out[..]);
      CopyRuns(parent, start, num, out, i);
    }
  }

  /** t is s with the set bits of `bits` added from start on. */
  ghost predicate Added(s: seq<Run>, t: seq<Run>, start: nat, bits: seq<bool>) {
    forall b: nat :: Has(t, b) <==> Has(s, b) || (start <= b < start + |bits| && bits[b - start])
  }

  /** The bits before i are looked at; those before firstSet, or all if there is none, are added, and the rest are ones. */
  ghost predicate Scanned(s: seq<Run>, t: seq<Run>, start: nat, bits: seq<bool>, i: nat, firstSet: int) {
    && i <= |bits| && -1 <= firstSet < i + 1
    && Added(s, t, start, bits[..if firstSet == -1 then i else firstSet])
    && (firstSet >= 0 ==> AllAre(bits[firstSet..i], true))
  }

  function Within(i: nat, bits: seq<bool>): nat {
    if i < |bits| then i else |bits|
  }

  /** A byte of the buffer, as far as it lies before num. */
  lemma ByteBits(buf: seq<bool>, num: nat, i: nat, v: bool)
    requires i < num <= |buf| && i + 8 <= |buf| && AllAre(buf[i..i + 8], v)
    ensures AllAre(buf[..num][i..Within(i + 8, buf[..num])], v)
  {
    var j := Within(i + 8, buf[..num]);
    var part := buf[..num][i..j];
    forall k | 0 <= k < |part| ensures part[k] == v {
      assert buf[i..i + 8][k] == v;
    }
  }

  /** The bits i..j are all v; ones begin or lengthen a run, zeroes are stepped over between runs. */
  lemma ScanSkip(s: seq<Run>, t: seq<Run>, start: nat, bits: seq<bool>, i: nat, j: nat, first: int, v: bool)
    requires Scanned(s, t, start, bits, i, first) && i < j <= |bits| && AllAre(bits[i..j], v) && (v || first == -1)
    ensures Scanned(s, t, start, bits, j, if v && first == -1 then i else first)
  {
    if v {
      var f := if first == -1 then i else first;
      assert bits[f..j] == bits[f..i] + bits[i..j];
    } else {
      forall b: nat ensures Has(t, b) <==> Has(s, b) || (start <= b < start + j && bits[b - start]) {
        assert Has(t, b) <==> Has(s, b) || (start <= b < start + i && bits[b - start]);
        assert start + i <= b < start + j ==> !bits[i..j][b - start - i];
      }
    }
  }

  lemma ScanInsert(s: seq<Run>, t: seq<Run>, u: seq<Run>, start: nat, bits: seq<bool>, first: nat, i: nat, j: nat)
    requires first <= i <= j <= |bits| && Added(s, t, start, bits[..first]) && Union(t, u, start + first, start + i)
    requires AllAre(bits[first..i], true) && AllAre(bits[i..j], false)
    ensures Added(s, u, start, bits[..j])
  {
    forall b: nat ensures Has(u, b) <==> Has(s, b) || (start <= b < start + j && bits[b - start]) {
      assert Has(u, b) <==> Has(t, b) || start + first <= b < start + i;
      assert Has(t, b) <==> Has(s, b) || (start <= b < start + first && bits[b - start]);
      assert start + first <= b < start + i ==> bits[first..i][b - start - first];
      assert start + i <= b < start + j ==> !bits[i..j][b - start - i];
    }
  }

  /** The buffer holds the bits of s in the range. */
  ghost predicate Copied(s: seq<Run>, start: nat, num: nat, bits: seq<bool>) {
    && num <= |bits|
    && forall b: nat :: start <= b < start + num ==> (bits[b - start] <==> Has(s, b))
  }

  lemma HasNext(s: seq<Run>, i: nat, b: nat)
    requires i < |s|
    ensures Has(s[..i + 1], b) <==> Has(s[..i], b) || s[i].Holds(b)
  {
    assert s[..i + 1] == s[..i] + [s[i]];
    ConcatHas(s[..i], [s[i]], b);
    OneHas(s[i], b);
  }

  lemma CopiedStep(s: seq<Run>, i: nat, start: nat, num: nat, a: seq<bool>, c: seq<bool>, lo: nat, hi: nat)
    requires i < |s| && Copied(s[..i], start, num, a) && |c| == |a| && hi <= num
    requires forall k :: 0 <= k < |a| ==> c[k] == (a[k] || lo <= k < hi)
    requires forall b: nat :: start <= b < start + num ==> (s[i].Holds(b) <==> start + lo <= b < start + hi)
    ensures Copied(s[..i + 1], start, num, c)
  {
    var t := s[..i + 1];
    forall b: nat | start <= b < start + num ensures c[b - start] <==> Has(t, b) {
      HasNext(s, i, b);
    }
  }

  lemma CopiedDone(s: seq<Run>, i: nat, start: nat, num: nat, bits: seq<bool>)
    requires Canonical(s) && i <= |s| && Copied(s[..i], start, num, bits) && (i == |s| || start + num <= s[i].start)
    ensures Copied(s, start, num, bits)
  {
    CanonicalPairs(s);
    forall b: nat | start <= b < start + num ensures bits[b - start] <==> Has(s, b) {
      assert s == s[..i] + s[i..];
      ConcatHas(s[..i], s[i..], b);
    }
  }

  /** Nothing before run i reaches the range. */
  lemma CopiedStart(s: seq<Run>, i: nat, start: nat, num: nat, bits: seq<bool>)
    requires Canonical(s) && i <= |s| && num <= |bits| && forall k :: 0 <= k < num ==> !bits[k]
    requires Reached(s, i, start, start, start) || (i < |s| && s[i].start <= start)
    ensures Copied(s[..i], start, num, bits)
  {
    CanonicalPairs(s);
    forall b: nat | start <= b < start + num ensures !Has(s[..i], b) {
      assert forall m :: 0 <= m < i ==> s[..i][m] == s[m];
    }
  }

  /** The bytes of a buffer from `offset` on, as memset fills them. */
  method SetBytes(out: array<bool>, offset: nat, nbytes: nat, v: bool)
    requires 8 * (offset + nbytes) <= out.Length
    modifies out
    ensures forall k :: 0 <= k < out.Length ==> out[k] == if 8 * offset <= k < 8 * (offset + nbytes) then v else old(out[k])
  {
    forall k | 8 * offset <= k < 8 * (offset + nbytes) {
      out[k] := v;
    }
  }

  /** Sets the bits lo..hi, whole bytes at a time where that is possible. */
  method FillBits(out: array<bool>, lo: nat, hi: nat)
    requires lo <= hi <= out.Length
    modifies out
    ensures forall k :: 0 <= k < out.Length ==> out[k] == (old(out[k]) || lo <= k < hi)
  {
    var pos, count := lo, hi - lo;
    while count > 0
      invariant lo <= pos <= hi && pos + count == hi
      invariant forall k :: 0 <= k < out.Length ==> out[k] == (old(out[k]) || lo <= k < pos)
    {
      if count >= 8 && pos % 8 == 0 {
        var nbytes, offset := count / 8, pos / 8;
        SetBytes(out, offset, nbytes, true);
        pos, count := pos + 8 * nbytes, count - 8 * nbytes;
      } else {
        out[pos] := true;
        pos, count := pos + 1, count - 1;
      }
    }
  }

  /** t is s without the bits after max. */
  ghost predicate Capped(s: seq<Run>, t: seq<Run>, max: nat) {
    Canonical(t) && forall b: nat :: Has(t, b) <==> Has(s, b) && b <= max
  }

  /** t has lost bits of s, but none up to max. */
  ghost predicate Capping(s: seq<Run>, t: seq<Run>, max: nat) {
    && Canonical(t)
    && (forall b: nat :: Has(t, b) ==> Has(s, b))
    && (forall b: nat :: Has(s, b) && b <= max ==> Has(t, b))
  }

  ghost predicate Resized(s: seq<Run>, t: seq<Run>, max: nat, end: nat, realEnd: nat) {
    forall b: nat :: Has(t, b) <==> (Has(s, b) && b <= max) || end < b <= realEnd
  }

  lemma CappedAll(s: seq<Run>, t: seq<Run>, max: nat)
    requires Capping(s, t, max) && t != [] && t[|t| - 1].End() <= max + 1
    ensures Capped(s, t, max)
  {
    CanonicalPairs(t);
  }

  lemma CapDrop(s: seq<Run>, t: seq<Run>, max: nat)
    requires Capping(s, t, max) && t != [] && t[|t| - 1].start > max
    ensures Capping(s, t[..|t| - 1], max)
  {
    var n := |t| - 1;
    CanonicalPairs(t);
    RunErased(t, n, t[n].start, t[n].End());
    assert t[..n] == Splice(t, n, n + 1, []);
    CapMinus(s, t, t[..n], max, t[n].start, t[n].End());
  }

  lemma CapCut(s: seq<Run>, t: seq<Run>, max: nat)
    requires Capping(s, t, max) && t != [] && t[|t| - 1].start <= max && max + 1 < t[|t| - 1].End()
    ensures var n := |t| - 1; Capping(s, t[n := Run(t[n].start, max - t[n].start + 1)], max)
  {
    var n := |t| - 1;
    CutTail(t, n, max + 1);
    CapMinus(s, t, t[n := Run(t[n].start, max - t[n].start + 1)], max, max + 1, t[n].End());
  }

  lemma CapMinus(s: seq<Run>, t: seq<Run>, u: seq<Run>, max: nat, start: nat, end: nat)
    requires Capping(s, t, max) && Minus(t, u, start, end) && max < start
    ensures Capping(s, u, max)
  {
    assert forall b: nat :: Has(u, b) <==> Has(t, b) && !(start <= b < end);
  }

  lemma HolderHas(ns: seq<RbExtent>, x: RbExtent, b: nat)
    requires x in ns && x.start <= b < x.End()
    ensures Has(Vals(ns), b)
  {
    var i :| 0 <= i < |ns| && ns[i] == x;
    HasAt(Vals(ns), i, b);
  }

  /** All runs before i end by start, and run i goes beyond it. */
  lemma ClearUntil(s: seq<Run>, i: nat, start: nat, end: nat)
    requires Canonical(s) && i < |s| && start < s[i].End() && start < end
    requires Reached(s, i, start, start, end)
    ensures AllClear(s, start, end) <==> end <= s[i].start
  {
    CanonicalPairs(s);
    if s[i].start < end {
      HasAt(s, i, if s[i].start < start then start else s[i].start);
    }
  }

  /** The run after the gap is the first that can hold a bit from start on. */
  lemma GapFirst(s: seq<Run>, g: nat, start: nat, end: nat)
    requires Canonical(s) && Gap(s, g, start, false) && start <= end
    ensures FirstSet(s, start, end, if g < |s| && s[g].start <= end then At(s[g].start) else Nowhere)
  {
    CanonicalPairs(s);
    if g < |s| {
      HasAt(s, g, s[g].start);
    }
  }

  lemma GapParent(s: seq<Run>, g: nat, start: nat)
    requires Canonical(s) && Gap(s, g, start, false)
    ensures forall m :: g <= m < |s| ==> start < s[m].start
  {
  }

  lemma EraseRuns(s: seq<Run>, g: nat)
    requires Canonical(s) && g < |s|
    ensures var t := Splice(s, g, g + 1, []);
            Minus(s, t, s[g].start, s[g].End()) && Reached(t, g, s[g].start, s[g].start, s[g].End())
  {
    CanonicalPairs(s);
    RunErased(s, g, s[g].start, s[g].End());
    var t := Splice(s, g, g + 1, []);
    assert forall m :: 0 <= m < |t| ==> t[m] == if m < g then s[m] else s[m + 1];
  }

  lemma TrimHead(s: seq<Run>, g: nat, end: nat)
    requires Canonical(s) && g < |s| && s[g].start <= end < s[g].End()
    ensures Minus(s, s[g := Run(end, s[g].End() - end)], s[g].start, end)
  {
    CanonicalPairs(s);
    RunCutLeft(s, g, s[g].start, end);
    assert s[g := Run(end, s[g].End() - end)] == Splice(s, g, g + 1, [Run(end, s[g].End() - end)]);
  }

  /** The loop over what follows a gap may begin at either neighbour of it. */
  lemma GapReached(s: seq<Run>, ns: seq<RbExtent>, g: nat, parent: RbExtent?, start: nat, end: nat) returns (i: nat)
    requires |s| == |ns| && Gap(s, g, start, false) && start <= end
    requires parent == null ==> ns == []
    requires parent != null ==> (g > 0 && parent == ns[g - 1]) || (g < |ns| && parent == ns[g])
    ensures i <= |ns| && (parent == null ==> i == |ns|) && (parent != null ==> i < |ns| && ns[i] == parent)
    ensures Reached(s, i, start, start, end)
  {
    i := if parent == null then 0 else if g > 0 && parent == ns[g - 1] then g - 1 else g;
  }

  lemma ReachedFar(s: seq<Run>, i: nat, start: nat, end: nat, end': nat)
    requires Canonical(s) && Reached(s, i, start, start, end) && start <= end'
    ensures Removing(s, s, i, start, start, end', false)
  {
  }

  /** After the end of its run is cut off, start is in no run. */
  lemma HolderGone(s: seq<Run>, t: seq<Run>, start: nat, mid: nat, h: nat, found: bool)
    requires Minus(s, t, start, mid) && start < mid
    requires found ==> h < |t| && t[h].start <= start && !GoRight(t[h], start, false)
    ensures !found
  {
    if found {
      HasAt(t, h, start);
    }
  }

  lemma MinusCover(s: seq<Run>, t: seq<Run>, u: seq<Run>, lo: nat, mid: nat, hi: nat)
    requires Minus(s, t, lo, mid) && Minus(t, u, lo, hi) && mid <= hi
    ensures Minus(s, u, lo, hi)
  {
    forall b: nat ensures Has(u, b) <==> Has(s, b) && !(lo <= b < hi) {
      assert Has(u, b) <==> Has(t, b) && !(lo <= b < hi);
      assert Has(t, b) <==> Has(s, b) && !(lo <= b < mid);
    }
  }

  /** A run is cut short at start. */
  lemma CutTail(s: seq<Run>, g: nat, start: nat)
    requires Canonical(s) && g < |s| && s[g].start < start < s[g].End()
    ensures Minus(s, s[g := Run(s[g].start, start - s[g].start)], start, s[g].End())
  {
    CanonicalPairs(s);
    RunCutRight(s, g, start, s[g].End());
    assert s[g := Run(s[g].start, start - s[g].start)] == Splice(s, g, g + 1, [Run(s[g].start, start - s[g].start)]);
  }

  /** The end that is put back was part of the run. */
  lemma SplitRuns(s: seq<Run>, s1: seq<Run>, t: seq<Run>, g: nat, start: nat, end: nat, old_end: nat)
    requires g < |s| && s[g].start <= start <= end <= old_end == s[g].End()
    requires Minus(s, s1, start, old_end) && Union(s1, t, end, old_end)
    ensures Minus(s, t, start, end)
  {
    InsideSet(s, g, start, old_end);
    forall b: nat ensures Has(t, b) <==> Has(s, b) && !(start <= b < end) {
      assert Has(t, b) <==> Has(s1, b) || end <= b < old_end;
      assert Has(s1, b) <==> Has(s, b) && !(start <= b < old_end);
    }
  }

  /** The loop of a removal has come to run i of u; the runs were s0 when it began. */
  ghost predicate Removing(s0: seq<Run>, u: seq<Run>, i: nat, start: nat, pos: nat, end: nat, any: bool) {
    && Canonical(s0) && Reached(u, i, start, pos, end) && Minus(s0, u, start, pos)
    && (any ==> Meets(s0, start, end))
    && (!any ==> u == s0)
  }

  lemma RemovingOn(s0: seq<Run>, u: seq<Run>, i: nat, start: nat, pos: nat, end: nat, any: bool)
    requires Removing(s0, u, i, start, pos, end, any) && i < |u| && u[i].End() <= start
    ensures Removing(s0, u, i + 1, start, pos, end, any)
  {
  }

  lemma RemovingHit(s0: seq<Run>, u: seq<Run>, i: nat, start: nat, pos: nat, end: nat, any: bool)
    requires Removing(s0, u, i, start, pos, end, any) && i < |u| && u[i].End() > start
    ensures u[i].start <= end ==> Meets(s0, start, end)
    ensures u[i].start > end ==> (any <==> Meets(s0, start, end))
  {
    CanonicalPairs(u);
  }

  lemma RemovingDone(s0: seq<Run>, u: seq<Run>, i: nat, start: nat, pos: nat, end: nat, any: bool)
    requires Removing(s0, u, i, start, pos, end, any) && i == |u|
    ensures Minus(s0, u, start, end) && (any <==> Meets(s0, start, end))
  {
    NothingRemoved(u, i, pos, end);
    MinusTrans(s0, u, u, start, pos, end);
  }

  /** All runs before i end by start, those from i on that do not begin at pos or later; start..pos is done. */
  ghost predicate Reached(s: seq<Run>, i: nat, start: nat, pos: nat, end: nat) {
    && i <= |s| && start <= pos <= end
    && (forall m :: 0 <= m < i ==> s[m].End() <= start)
    && (forall m :: i <= m < |s| ==> s[m].End() <= start || pos <= s[m].start)
  }

  lemma ReachedEnd(s: seq<Run>, i: nat, start: nat, pos: nat, end: nat)
    requires Canonical(s) && Reached(s, i, start, pos, end) && (i == |s| || end < s[i].start)
    ensures Minus(s, s, pos, end)
    ensures !Meets(s[i..], start, end)
  {
    CanonicalPairs(s);
    NothingRemoved(s, i, pos, end);
  }

  lemma ReachedErase(s: seq<Run>, i: nat, start: nat, pos: nat, end: nat)
    requires Canonical(s) && Reached(s, i, start, pos, end) && i < |s| && start < s[i].End() <= end
    ensures Minus(s, Splice(s, i, i + 1, []), pos, s[i].End())
    ensures Reached(Splice(s, i, i + 1, []), i, start, s[i].End(), end)
  {
    CanonicalPairs(s);
    RunErased(s, i, pos, s[i].End());
  }

  lemma ReachedCut(s: seq<Run>, i: nat, start: nat, pos: nat, end: nat)
    requires Canonical(s) && Reached(s, i, start, pos, end) && i < |s| && s[i].start <= end < s[i].End() && start < s[i].End()
    requires pos <= s[i].start
    ensures Minus(s, Splice(s, i, i + 1, [Run(end, s[i].End() - end)]), pos, end)
  {
    CanonicalPairs(s);
    RunCutLeft(s, i, pos, end);
  }

  lemma CanonicalTail(s: seq<Run>, g: nat, start: nat)
    requires Canonical(s) && g < |s| && start <= s[g].End()
    ensures TailSorted(s, g, start)
  {
    CanonicalPairs(s);
  }

  lemma AlreadySet(s: seq<Run>, g: nat, start: nat, end: nat)
    requires Canonical(s) && g < |s| && s[g].start <= start && end <= s[g].End()
    ensures Union(s, s, start, end)
  {
    forall b: nat | start <= b < end ensures Has(s, b) {
      HasAt(s, g, b);
    }
  }

  lemma FoundHas(s: seq<Run>, g: nat, b: nat)
    requires Canonical(s) && g < |s| && s[g].start <= b <= s[g].End()
    ensures Has(s, b) <==> b < s[g].End()
  {
    CanonicalPairs(s);
    if b < s[g].End() {
      HasAt(s, g, b);
    }
  }

  lemma GapHas(s: seq<Run>, g: nat, b: nat)
    requires Gap(s, g, b, true) || Gap(s, g, b, false)
    ensures !Has(s, b)
  {
  }

  lemma FoundUnion(s: seq<Run>, t: seq<Run>, g: nat, j: nat, start: nat, end: nat, end': nat)
    requires Canonical(s) && g < |s| && s[g].start <= start <= s[g].End() < end
    requires Swallowed(s, g, j, end, end') && s[g].start <= end'
    requires t == Splice(s, g, j, [Run(s[g].start, end' - s[g].start)])
    ensures Union(s, t, start, end)
  {
    FoundAbsorbs(s, g, j, start, end, end');
    UnionRun(s, g, j, start, end, s[g].start, end');
  }

  lemma FoundAbsorbs(s: seq<Run>, g: nat, j: nat, start: nat, end: nat, end': nat)
    requires Canonical(s) && g < |s| && s[g].start <= start <= s[g].End() < end
    requires Swallowed(s, g, j, end, end') && s[g].start <= end'
    ensures Absorbs(s, g, j, start, end, s[g].start, end')
  {
    CanonicalPairs(s);
  }

  ghost function With(s: seq<Run>, g: nat, r: Run): (v: seq<Run>)
    requires g <= |s|
  {
    s[..g] + [r] + s[g..]
  }

  lemma NewTail(s: seq<Run>, g: nat, r: Run)
    requires Canonical(s) && Gap(s, g, r.start, true)
    ensures TailSorted(With(s, g, r), g, r.start)
  {
    CanonicalPairs(s);
    var v := With(s, g, r);
    assert forall m :: g < m < |v| ==> v[m] == s[m - 1];
    forall m, m' | g < m < m' < |v| ensures Ordered(v, m, m') {
      assert s[m - 1].End() < s[m' - 1].start;
    }
  }

  lemma WithSplice(s: seq<Run>, g: nat, r: Run, j: nat, mid: seq<Run>)
    requires g < j <= |s| + 1
    ensures Splice(With(s, g, r), g, j, mid) == Splice(s, g, j - 1, mid)
  {
    var v := With(s, g, r);
    assert v[..g] == s[..g];
    assert v[j..] == s[j - 1..];
  }

  lemma NewUnion(s: seq<Run>, v: seq<Run>, t: seq<Run>, g: nat, j: nat, start: nat, count: nat, end': nat)
    requires Canonical(s) && Gap(s, g, start, true) && count > 0
    requires g < j <= |s| + 1 && v == With(s, g, Run(start, count)) && start <= end'
    requires Swallowed(v, g, j, start + count, end')
    requires t == Splice(v, g, j, [Run(start, end' - start)])
    ensures Union(s, t, start, start + count)
  {
    NewAbsorbs(s, v, g, j, start, count, end');
    WithSplice(s, g, Run(start, count), j, [Run(start, end' - start)]);
    UnionRun(s, g, j - 1, start, start + count, start, end');
  }

  lemma NewAbsorbs(s: seq<Run>, v: seq<Run>, g: nat, j: nat, start: nat, count: nat, end': nat)
    requires Canonical(s) && Gap(s, g, start, true) && count > 0
    requires v == With(s, g, Run(start, count)) && Swallowed(v, g, j, start + count, end')
    ensures g < j && Absorbs(s, g, j - 1, start, start + count, start, end')
  {
    assert forall m :: g <= m < |s| ==> s[m] == v[m + 1];
  }

  lemma SpliceOne(s: seq<Run>, k: nat, j: nat, r: Run)
    requires k < j <= |s|
    ensures (s[..k + 1] + s[j..])[k := r] == Splice(s, k, j, [r])
  {
  }

  /** What follows run k begins after start, and is in order. */
  ghost predicate TailSorted(s: seq<Run>, k: nat, start: nat) {
    && (forall m :: k < m < |s| ==> BeginsAfter(s, m, start))
    && (forall m, m' :: k < m < m' < |s| ==> Ordered(s, m, m'))
  }

  ghost predicate BeginsAfter(s: seq<Run>, m: nat, start: nat)
    requires m < |s|
  {
    start < s[m].start && s[m].count > 0
  }

  /** The loop has come to run j: either all runs so far end by end and it goes on, or it is done. */
  ghost predicate Swallowing(s: seq<Run>, k: nat, j: nat, end: nat, end': nat, again: bool) {
    match again
    case true =>
      && k < j <= |s| && end' == end
      && (forall m :: k < m < j ==> s[m].start <= end && s[m].End() <= end)
    case false =>
      && k < j <= |s|
      && (forall m :: k < m < j ==> s[m].start <= end)
      && (forall m :: j <= m < |s| ==> end' < s[m].start)
      && end' == if k + 1 < j && end < s[j - 1].End() then s[j - 1].End() else end
  }

  /** The runs after k and before j meet or touch what ends at end; together they end at end'. */
  ghost predicate Swallowed(s: seq<Run>, k: nat, j: nat, end: nat, end': nat) {
    Swallowing(s, k, j, end, end', false)
  }

  lemma SwallowStart(s: seq<Run>, k: nat, start: nat, end: nat)
    requires k < |s| && TailSorted(s, k, start)
    ensures Swallowing(s, k, k + 1, end, end, true)
  {
  }

  lemma SwallowDone(s: seq<Run>, k: nat, j: nat, end: nat, end': nat)
    requires Swallowing(s, k, j, end, end', true) && j == |s|
    ensures Swallowed(s, k, j, end, end')
  {
  }

  lemma SwallowStep(s: seq<Run>, k: nat, j: nat, start: nat, end: nat, end': nat)
    requires TailSorted(s, k, start) && Swallowing(s, k, j, end, end', true) && j < |s|
    ensures end < s[j].start ==> Swallowing(s, k, j, end, end, false)
    ensures s[j].End() <= end ==> Swallowing(s, k, j + 1, end, end, true)
    ensures s[j].start <= end < s[j].End() ==> Swallowing(s, k, j + 1, end, s[j].End(), false)
  {
    assert BeginsAfter(s, j, start);
    forall m | j < m < |s| ensures s[j].End() < s[m].start {
      assert Ordered(s, j, m);
    }
  }

  ghost function Cut(ns: seq<RbExtent>, k: nat, j: nat): (ns': seq<RbExtent>)
    requires k < j <= |ns|
  {
    ns[..k + 1] + ns[j..]
  }

  lemma CutVals(ns: seq<RbExtent>, k: nat, j: nat)
    requires k < j <= |ns|
    ensures Vals(Cut(ns, k, j)) == Vals(ns)[..k + 1] + Vals(ns)[j..]
  {
  }

  lemma CutStart(ns: seq<RbExtent>, k: nat)
    requires k < |ns|
    ensures Cut(ns, k, k + 1) == ns
  {
  }

  lemma CutMembers(ns: seq<RbExtent>, k: nat, j: nat)
    requires k < j <= |ns|
    ensures forall y :: y in Cut(ns, k, j) ==> y in ns
  {
  }

  lemma CutStep(ns: seq<RbExtent>, k: nat, j: nat)
    requires k < j < |ns|
    ensures k + 1 < |Cut(ns, k, j)| && Cut(ns, k, j)[k + 1] == ns[j]
    ensures k + 2 < |Cut(ns, k, j)| <==> j + 1 < |ns|
    ensures j + 1 < |ns| ==> Cut(ns, k, j)[k + 2] == ns[j + 1]
    ensures Without(Cut(ns, k, j), k + 1) == Cut(ns, k, j + 1)
  {
  }
}
