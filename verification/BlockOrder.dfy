/**
 In which order ext2fs_block_iterate3 of libext2fs/block.c calls for the index blocks of a file, and which of them.
 */
module BlockOrder {
  import opened BlockTree
  import opened BlockIterate
  import Bmap

  // ----- The calls for index blocks -----

  /** The blocks that are called for with a count, in the order of the calls. */
  function Called(t: seq<Event>, count: int): (s: seq<nat>) {
    if t == [] then [] else (if t[0].count == count then [t[0].blk] else []) + Called(t[1..], count)
  }

  /** The pointers that are not 0. */
  function Set(s: seq<nat>): (r: seq<nat>) {
    if s == [] then [] else (if s[0] != 0 then [s[0]] else []) + Set(s[1..])
  }

  lemma {:induction false} CalledConcat(t: seq<Event>, u: seq<Event>, count: int)
    ensures Called(t + u, count) == Called(t, count) + Called(u, count)
  {
    if t == [] {
      assert t + u == u;
    } else {
      var one := if t[0].count == count then [t[0].blk] else [];
      assert (t + u)[0] == t[0] && (t + u)[1..] == t[1..] + u;
      CalledConcat(t[1..], u, count);
      Associative(one, Called(t[1..], count), Called(u, count));
    }
  }

  lemma {:induction false} SetConcat(s: seq<nat>, t: seq<nat>)
    ensures Set(s + t) == Set(s) + Set(t)
  {
    if s == [] {
      assert s + t == t;
    } else {
      var one := if s[0] != 0 then [s[0]] else [];
      assert (s + t)[0] == s[0] && (s + t)[1..] == s[1..] + t;
      SetConcat(s[1..], t);
      Associative(one, Set(s[1..]), Set(t));
    }
  }

  lemma {:induction false} SetOfZeroes(s: seq<nat>)
    requires Bmap.AllZero(s)
    ensures Set(s) == []
  {
    if s != [] {
      SetOfZeroes(s[1..]);
    }
  }

  /** The pointers to index blocks of depth k in the subtree of depth `depth` at each of s. */
  ghost function IndexBlocks(d: Device, fl: Flags, depth: nat, s: seq<nat>, k: nat): (r: seq<nat>)
    requires d.Valid()
  {
    if fl.dataOnly || depth < k then [] else Set(Level(d, depth - k, s))
  }

  /**
   In every subtree the calls with the count -k are for the index blocks of depth k, in the order of the file and
   once each; with BLOCK_FLAG_DATA_ONLY there are none.
   */
  lemma {:induction false} WalkCalls(d: Device, fl: Flags, depth: nat, b: nat, ref: nat, off: nat, count: nat, k: nat)
    requires d.Valid() && k > 0
    ensures Called(Walk(d, fl, depth, b, ref, off, count), 0 - k) == IndexBlocks(d, fl, depth, [b], k)
    decreases depth, 0
  {
    if b == 0 {
      if k <= depth {
        Bmap.LevelZero(d, depth - k);
        SetOfZeroes(Level(d, depth - k, [0]));
      }
    } else if depth == 0 {
      assert [Event(b, count, ref, off)][1..] == [];
    } else {
      EntriesCalls(d, fl, depth - 1, d.Entries(b), 0, b, count, k);
      assert d.Entries(b)[0..] == d.Entries(b);
      SelfCalls(d, fl, depth, b, ref, off, count, k);
    }
  }

  lemma SelfCalls(d: Device, fl: Flags, depth: nat, b: nat, ref: nat, off: nat, count: nat, k: nat)
    requires d.Valid() && k > 0 && depth > 0 && b != 0
    requires Called(WalkEntries(d, fl, depth - 1, d.Entries(b), 0, b, count), 0 - k)
          == IndexBlocks(d, fl, depth - 1, d.Entries(b), k)
    ensures Called(Walk(d, fl, depth, b, ref, off, count), 0 - k) == IndexBlocks(d, fl, depth, [b], k)
  {
    var self := if fl.dataOnly then [] else [Event(b, 0 - depth, ref, off)];
    var below := WalkEntries(d, fl, depth - 1, d.Entries(b), 0, b, count);
    SelfAround(self, below, 0 - k);
    IndexBlocksOf(d, fl, depth, b, k);
  }

  /** The index blocks of a subtree are those of its entries, or just the one it begins with. */
  lemma IndexBlocksOf(d: Device, fl: Flags, depth: nat, b: nat, k: nat)
    requires d.Valid() && k > 0 && depth > 0 && b != 0
    ensures IndexBlocks(d, fl, depth, [b], k) ==
            if !fl.dataOnly && depth == k then [b] else IndexBlocks(d, fl, depth - 1, d.Entries(b), k)
  {
    if depth == k {
      assert [b][1..] == [] && Set([b]) == [b];
    } else if k < depth {
      LevelExpand(d, depth - 1 - k, [b]);
      ExpandOne(d, b);
    }
  }

  lemma SelfAround(self: seq<Event>, below: seq<Event>, count: int)
    requires |self| <= 1
    ensures var s := if self != [] && self[0].count == count then [self[0].blk] else [];
            Called(self + below, count) == s + Called(below, count) && Called(below + self, count) == Called(below, count) + s
  {
    CalledConcat(self, below, count);
    CalledConcat(below, self, count);
    assert self != [] ==> self[1..] == [];
  }

  lemma {:induction false} EntriesCalls(d: Device, fl: Flags, depth: nat, es: seq<nat>, i: nat, parent: nat, count: nat, k: nat)
    requires d.Valid() && k > 0 && i <= |es|
    ensures Called(WalkEntries(d, fl, depth, es, i, parent, count), 0 - k) == IndexBlocks(d, fl, depth, es[i..], k)
    decreases depth, |es| - i + 1
  {
    if i == |es| {
      assert es[i..] == [];
      if k <= depth {
        LevelNothing(d, depth - k);
      }
    } else {
      var off, count' := Offset(depth, es, i), count + Size(d.limit, depth);
      WalkCalls(d, fl, depth, es[i], parent, off, count, k);
      EntriesCalls(d, fl, depth, es, i + 1, parent, count', k);
      CalledConcat(Walk(d, fl, depth, es[i], parent, off, count), WalkEntries(d, fl, depth, es, i + 1, parent, count'), 0 - k);
      IndexBlocksFrom(d, fl, depth, es, i, k);
    }
  }

  lemma IndexBlocksFrom(d: Device, fl: Flags, depth: nat, es: seq<nat>, i: nat, k: nat)
    requires d.Valid() && i < |es|
    ensures IndexBlocks(d, fl, depth, es[i..], k)
         == IndexBlocks(d, fl, depth, [es[i]], k) + IndexBlocks(d, fl, depth, es[i + 1..], k)
  {
    if !fl.dataOnly && k <= depth {
      LevelFrom(d, depth - k, es, i);
      SetConcat(Level(d, depth - k, [es[i]]), Level(d, depth - k, es[i + 1..]));
    }
  }

  lemma {:induction false} DirectCalls(ptrs: seq<nat>, i: nat, count: nat, k: nat)
    requires i <= |ptrs| && k > 0
    ensures Called(DirectWalk(ptrs, i, count), 0 - k) == []
    decreases |ptrs| - i
  {
    if i < |ptrs| {
      DirectCalls(ptrs, i + 1, count + 1, k);
      var one := if ptrs[i] == 0 then [] else [Event(ptrs[i], count, 0, i)];
      CalledConcat(one, DirectWalk(ptrs, i + 1, count + 1), 0 - k);
      assert ptrs[i] != 0 ==> one[1..] == [];
    }
  }

  /** Of a whole file. */
  lemma FileIndexBlocks(d: Device, fl: Flags, ib: seq<nat>, k: nat)
    requires d.Valid() && |ib| == NPTRS && k > 0
    ensures Called(FileWalk(d, fl, ib), 0 - k)
         == IndexBlocks(d, fl, 1, [ib[12]], k) + IndexBlocks(d, fl, 2, [ib[13]], k) + IndexBlocks(d, fl, 3, [ib[14]], k)
  {
    var ptrs, n, n' := ib[..NDIR], NDIR + d.limit, NDIR + d.limit + d.limit * d.limit;
    InParts(d, fl, ib, ptrs, n, n');
    DirectCalls(ptrs, 0, 0, k);
    WalkCalls(d, fl, 1, ib[12], 0, 12, NDIR, k);
    WalkCalls(d, fl, 2, ib[13], 0, 13, n, k);
    WalkCalls(d, fl, 3, ib[14], 0, 14, n', k);
    CalledFour(DirectWalk(ptrs, 0, 0), Walk(d, fl, 1, ib[12], 0, 12, NDIR), Walk(d, fl, 2, ib[13], 0, 13, n),
               Walk(d, fl, 3, ib[14], 0, 14, n'), 0 - k);
  }

  lemma CalledFour(t0: seq<Event>, t1: seq<Event>, t2: seq<Event>, t3: seq<Event>, count: int)
    requires Called(t0, count) == []
    ensures Called(t0 + (t1 + t2 + t3), count) == Called(t1, count) + Called(t2, count) + Called(t3, count)
  {
    CalledConcat(t0, t1 + t2 + t3, count);
    CalledConcat(t1 + t2, t3, count);
    CalledConcat(t1, t2, count);
  }

  // ----- The order of the calls -----

  /** e is the call for the index block that names the block of e'. */
  ghost predicate IsAbove(e: Event, e': Event) {
    e.blk == e'.ref && e.count == if e'.count >= 0 then -1 else e'.count - 1
  }

  /** The call for the index block that names block j comes before call j, or behind it. */
  ghost predicate Led(t: seq<Event>, j: nat, behind: bool)
    requires j < |t|
  {
    exists i :: (if behind then j < i < |t| else 0 <= i < j) && IsAbove(t[i], t[j])
  }

  /** The calls for blocks that are named by `ref`, which are of depth `depth`. */
  ghost predicate IsTop(e: Event, ref: nat, depth: nat) {
    e.ref == ref && if depth == 0 then e.count >= 0 else e.count == 0 - depth
  }

  /** Every call is for one of these, or is led by another one. */
  ghost predicate Nested(t: seq<Event>, ref: nat, depth: nat, behind: bool) {
    forall j :: 0 <= j < |t| ==> IsTop(t[j], ref, depth) || Led(t, j, behind)
  }

  /** More calls behind these, or in front of them, change nothing about their order. */
  lemma LedThen(t: seq<Event>, u: seq<Event>, j: nat, behind: bool)
    requires j < |t| && Led(t, j, behind)
    ensures Led(t + u, j, behind)
  {
    var i :| (if behind then j < i < |t| else 0 <= i < j) && IsAbove(t[i], t[j]);
    assert (t + u)[i] == t[i] && (t + u)[j] == t[j];
  }

  lemma LedAfter(t: seq<Event>, u: seq<Event>, j: nat, behind: bool)
    requires j < |u| && Led(u, j, behind)
    ensures Led(t + u, |t| + j, behind)
  {
    var i :| (if behind then j < i < |u| else 0 <= i < j) && IsAbove(u[i], u[j]);
    assert (t + u)[|t| + i] == u[i] && (t + u)[|t| + j] == u[j];
  }

  lemma NestedConcat(t: seq<Event>, u: seq<Event>, ref: nat, depth: nat, behind: bool)
    requires Nested(t, ref, depth, behind) && Nested(u, ref, depth, behind)
    ensures Nested(t + u, ref, depth, behind)
  {
    forall j | 0 <= j < |t + u| ensures IsTop((t + u)[j], ref, depth) || Led(t + u, j, behind) {
      if j < |t| {
        assert (t + u)[j] == t[j];
        if Led(t, j, behind) {
          LedThen(t, u, j, behind);
        }
      } else {
        var n: nat := j - |t|;
        assert (t + u)[j] == u[n];
        if Led(u, n, behind) {
          LedAfter(t, u, n, behind);
        }
      }
    }
  }

  /** All calls below an index block are led by its own, in front of them or behind. */
  lemma NestedUnder(self: Event, below: seq<Event>, depth: nat, behind: bool)
    requires self.count == 0 - depth - 1 && Nested(below, self.blk, depth, behind)
    ensures Nested(if behind then below + [self] else [self] + below, self.ref, depth + 1, behind)
  {
    var t := if behind then below + [self] else [self] + below;
    var at, shift := if behind then |below| else 0, if behind then 0 else 1;
    assert t[at] == self;
    forall j | 0 <= j < |t| ensures IsTop(t[j], self.ref, depth + 1) || Led(t, j, behind) {
      if j != at {
        var n: nat := j - shift;
        assert t[j] == below[n];
        if IsTop(below[n], self.blk, depth) {
          assert IsAbove(t[at], t[j]);
        } else if behind {
          LedThen(below, [self], n, behind);
        } else {
          LedAfter([self], below, n, behind);
        }
      }
    }
  }

  lemma {:induction false} WalkNested(d: Device, fl: Flags, depth: nat, b: nat, ref: nat, off: nat, count: nat)
    requires d.Valid() && !fl.dataOnly
    ensures Nested(Walk(d, fl, depth, b, ref, off, count), ref, depth, fl.depthTraverse)
    decreases depth, 0
  {
    if b != 0 && depth > 0 {
      EntriesNested(d, fl, depth - 1, d.Entries(b), 0, b, count);
      NestedUnder(Event(b, 0 - depth, ref, off), WalkEntries(d, fl, depth - 1, d.Entries(b), 0, b, count), depth - 1,
                  fl.depthTraverse);
    }
  }

  lemma {:induction false} EntriesNested(d: Device, fl: Flags, depth: nat, es: seq<nat>, i: nat, parent: nat, count: nat)
    requires d.Valid() && !fl.dataOnly && i <= |es|
    ensures Nested(WalkEntries(d, fl, depth, es, i, parent, count), parent, depth, fl.depthTraverse)
    decreases depth, |es| - i + 1
  {
    if i < |es| {
      var off, count' := Offset(depth, es, i), count + Size(d.limit, depth);
      WalkNested(d, fl, depth, es[i], parent, off, count);
      EntriesNested(d, fl, depth, es, i + 1, parent, count');
      NestedConcat(Walk(d, fl, depth, es[i], parent, off, count), WalkEntries(d, fl, depth, es, i + 1, parent, count'),
                   parent, depth, fl.depthTraverse);
    }
  }

  /** Every call is for a block that the inode names, or is led by another one. */
  ghost predicate InOrder(t: seq<Event>, behind: bool) {
    forall j :: 0 <= j < |t| ==> t[j].ref == 0 || Led(t, j, behind)
  }

  lemma OrderConcat(t: seq<Event>, u: seq<Event>, behind: bool)
    requires InOrder(t, behind) && InOrder(u, behind)
    ensures InOrder(t + u, behind)
  {
    forall j | 0 <= j < |t + u| ensures (t + u)[j].ref == 0 || Led(t + u, j, behind) {
      if j < |t| {
        assert (t + u)[j] == t[j];
        if Led(t, j, behind) {
          LedThen(t, u, j, behind);
        }
      } else {
        var n: nat := j - |t|;
        assert (t + u)[j] == u[n];
        if Led(u, n, behind) {
          LedAfter(t, u, n, behind);
        }
      }
    }
  }

  lemma {:induction false} DirectInOrder(ptrs: seq<nat>, i: nat, count: nat, behind: bool)
    requires i <= |ptrs|
    ensures InOrder(DirectWalk(ptrs, i, count), behind)
    decreases |ptrs| - i
  {
    if i < |ptrs| {
      DirectInOrder(ptrs, i + 1, count + 1, behind);
      OrderConcat(if ptrs[i] == 0 then [] else [Event(ptrs[i], count, 0, i)], DirectWalk(ptrs, i + 1, count + 1), behind);
    }
  }

  lemma TreeInOrder(d: Device, fl: Flags, depth: nat, b: nat, off: nat, count: nat)
    requires d.Valid() && !fl.dataOnly
    ensures InOrder(Walk(d, fl, depth, b, 0, off, count), fl.depthTraverse)
  {
    WalkNested(d, fl, depth, b, 0, off, count);
  }

  /**
   Without BLOCK_FLAG_DEPTH_TRAVERSE the call for an index block comes before those for the blocks it names, with it
   behind them, all over the file.
   */
  lemma FileInOrder(d: Device, fl: Flags, ib: seq<nat>)
    requires d.Valid() && |ib| == NPTRS && !fl.dataOnly
    ensures InOrder(FileWalk(d, fl, ib), fl.depthTraverse)
  {
    var ptrs, n, n' := ib[..NDIR], NDIR + d.limit, NDIR + d.limit + d.limit * d.limit;
    var t0, t1 := DirectWalk(ptrs, 0, 0), Walk(d, fl, 1, ib[12], 0, 12, NDIR);
    var t2, t3 := Walk(d, fl, 2, ib[13], 0, 13, n), Walk(d, fl, 3, ib[14], 0, 14, n');
    InParts(d, fl, ib, ptrs, n, n');
    DirectInOrder(ptrs, 0, 0, fl.depthTraverse);
    TreeInOrder(d, fl, 1, ib[12], 12, NDIR);
    TreeInOrder(d, fl, 2, ib[13], 13, n);
    TreeInOrder(d, fl, 3, ib[14], 14, n');
    OrderConcat(t1, t2, fl.depthTraverse);
    OrderConcat(t1 + t2, t3, fl.depthTraverse);
    OrderConcat(t0, t1 + t2 + t3, fl.depthTraverse);
  }
}
