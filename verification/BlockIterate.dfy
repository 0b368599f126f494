/**
 Model of the block-mapped part of libext2fs/block.c: the walk over all blocks of a file, for a
 callback that changes nothing, without BLOCK_FLAG_APPEND. The callback is seen through the list of
 calls it gets.
 */
module BlockIterate {
  import opened BlockTree
  import Bmap

  /** A call: the block, its number in the file or minus its depth for an index block, and where its pointer is. */
  datatype Event = Event(blk: nat, count: int, ref: nat, offset: nat)

  datatype Flags = Flags(depthTraverse: bool, dataOnly: bool)

  datatype Code = None | BadInd | BadDind | BadTind

  // ----- What the walk does -----

  /** `sizeof(blk_t)`. */
  const WIDTH := 4

  /** The offset reported for entry i. The loops over index blocks leave it as it is at a hole. */
  function Offset(depth: nat, es: seq<nat>, i: nat): (off: nat)
    requires i <= |es|
  {
    if i == 0 then 0 else Offset(depth, es, i - 1) + if depth > 0 && es[i - 1] == 0 then 0 else WIDTH
  }

  /** The offset is that of the entry, except behind a hole between index blocks. */
  lemma {:induction false} OffsetRight(depth: nat, es: seq<nat>, i: nat)
    requires i <= |es|
    ensures Offset(depth, es, i) <= WIDTH * i
    ensures Offset(depth, es, i) == WIDTH * i <==> depth == 0 || forall j :: 0 <= j < i ==> es[j] != 0
  {
    if i > 0 {
      OffsetRight(depth, es, i - 1);
    }
  }

  /** Behind one hole at the beginning, the second index block is reported where the first one would be. */
  lemma OffsetExample(depth: nat, es: seq<nat>)
    requires 0 < depth && 2 <= |es| && es[0] == 0
    ensures Offset(depth, es, 1) == 0 != WIDTH * 1
  {
    assert Offset(depth, es, 0) == 0;
  }

  /** The calls for the subtree of depth `depth` at b. */
  function Walk(d: Device, fl: Flags, depth: nat, b: nat, ref: nat, off: nat, count: nat): (t: seq<Event>)
    requires d.Valid()
    decreases depth, 0
  {
    if b == 0 then []
    else if depth == 0 then [Event(b, count, ref, off)]
    else
      var self := if fl.dataOnly then [] else [Event(b, 0 - depth, ref, off)];
      var below := WalkEntries(d, fl, depth - 1, d.Entries(b), 0, b, count);
      if fl.depthTraverse then below + self else self + below
  }

  /** The calls for the entries from i on of the index block `parent`. */
  function WalkEntries(d: Device, fl: Flags, depth: nat, es: seq<nat>, i: nat, parent: nat, count: nat): (t: seq<Event>)
    requires d.Valid() && i <= |es|
    decreases depth, |es| - i + 1
  {
    if i == |es| then []
    else
      Walk(d, fl, depth, es[i], parent, Offset(depth, es, i), count)
      + WalkEntries(d, fl, depth, es, i + 1, parent, count + Size(d.limit, depth))
  }

  /** An index block may be read. */
  predicate Readable(d: Device, first: nat, b: nat) {
    first <= b < |d.blocks|
  }

  /** All index blocks of the subtree may be read. */
  ghost predicate AllReadable(d: Device, first: nat, depth: nat, b: nat)
    requires d.Valid()
  {
    depth == 0 || b == 0 ||
    (Readable(d, first, b) && forall i :: 0 <= i < d.limit ==> AllReadable(d, first, depth - 1, d.Entries(b)[i]))
  }

  // ----- What it does when an index block cannot be read -----

  /** The calls that are made, the number of the next block, and the error that ends the walk of a subtree, if any. */
  datatype Course = Course(calls: seq<Event>, count: nat, bad: Code)

  /** The error for an index block. */
  function Bad(depth: nat): (code: Code) {
    if depth == 1 then BadInd else if depth == 2 then BadDind else BadTind
  }

  /** The call for an index block itself, before or after what is below it. */
  function Self(fl: Flags, after: bool, blk: nat, depth: nat, ref: nat, offset: nat): (t: seq<Event>) {
    if fl.dataOnly || fl.depthTraverse != after then [] else [Event(blk, 0 - depth, ref, offset)]
  }

  /** The walk of the subtree of depth `depth` at b: where it fails, the counter stays as it is. */
  function Visit(d: Device, first: nat, fl: Flags, depth: nat, b: nat, ref: nat, off: nat, count: nat): (v: Course)
    requires d.Valid()
    decreases depth, 0
  {
    if b == 0 then Course([], count + Size(d.limit, depth), None)
    else if depth == 0 then Course([Event(b, count, ref, off)], count + 1, None)
    else if !Readable(d, first, b) then Course(Self(fl, false, b, depth, ref, off), count, Bad(depth))
    else
      var v := VisitEntries(d, first, fl, depth - 1, d.Entries(b), 0, b, count);
      Course(Self(fl, false, b, depth, ref, off) + v.calls + Self(fl, true, b, depth, ref, off), v.count, v.bad)
  }

  function VisitEntries(d: Device, first: nat, fl: Flags, depth: nat, es: seq<nat>, i: nat, parent: nat, count: nat): (v: Course)
    requires d.Valid() && i <= |es|
    decreases depth, |es| - i + 1
  {
    if i == |es| then Course([], count, None)
    else
      var v := Visit(d, first, fl, depth, es[i], parent, Offset(depth, es, i), count);
      if v.bad != None then v else Then(v.calls, VisitEntries(d, first, fl, depth, es, i + 1, parent, v.count))
  }

  /** These calls first. */
  function Then(t: seq<Event>, v: Course): (w: Course) {
    Course(t + v.calls, v.count, v.bad)
  }

  /** `struct block_context`. */
  class Context {
    const dev: Device
    const first: nat
    const flags: Flags
    var bcount: nat
    var errcode: Code
    var trace: seq<Event>

    constructor (dev: Device, first: nat, flags: Flags)
      ensures this.dev == dev && this.first == first && this.flags == flags
      ensures bcount == 0 && errcode == None && trace == []
    {
      this.dev, this.first, this.flags := dev, first, flags;
      bcount, errcode, trace := 0, None, [];
    }

    /** The course has been taken, from calls t on. */
    predicate Took(t: seq<Event>, v: Course)
      reads this
    {
      trace == t + v.calls && bcount == v.count
    }

    /** `(*ctx->func)(...)`. */
    method Call(blk: nat, count: int, ref: nat, offset: nat)
      modifies `trace
      ensures trace == old(trace) + [Event(blk, count, ref, offset)]
    {
      trace := trace + [Event(blk, count, ref, offset)];
    }

    /** The call for an index block, before or after what is below it. */
    method CallSelf(after: bool, blk: nat, depth: nat, ref: nat, offset: nat)
      modifies `trace
      ensures trace == old(trace) + Self(flags, after, blk, depth, ref, offset)
    {
      if !flags.dataOnly && flags.depthTraverse == after {
        Call(blk, 0 - depth, ref, offset);
      }
    }

    /** The loop over the entries of an indirect block. */
    method IndEntries(es: seq<nat>, ind: nat)
      requires dev.Valid() && |es| == dev.limit
      modifies `bcount, `trace
      ensures var v := VisitEntries(dev, first, flags, 0, es, 0, ind, old(bcount)); Took(old(trace), v) && v.bad == None
    {
      var offset := 0;
      for i := 0 to dev.limit
        invariant offset == Offset(0, es, i)
        invariant Then(trace, VisitEntries(dev, first, flags, 0, es, i, ind, bcount))
               == Then(old(trace), VisitEntries(dev, first, flags, 0, es, 0, ind, old(bcount)))
      {
        ThenStep(dev, first, flags, 0, es, i, ind, bcount, trace);
        if es[i] != 0 {
          Call(es[i], bcount, ind, offset);
        }
        offset := offset + WIDTH;
        bcount := bcount + 1;
      }
      assert trace + [] == trace;
    }

    /** `block_iterate_ind`. */
    method IterateInd(ind: nat, ref: nat, refOffset: nat) returns (failed: bool)
      requires dev.Valid() && ind != 0
      modifies this
      ensures var v := Visit(dev, first, flags, 1, ind, ref, refOffset, old(bcount));
              Took(old(trace), v) && errcode == v.bad && (failed <==> v.bad != None)
    {
      ghost var t := trace;
      CallSelf(false, ind, 1, ref, refOffset);
      if !Readable(dev, first, ind) {
        errcode := BadInd;
        return true;
      }
      errcode := None;
      IndEntries(dev.Entries(ind), ind);
      CallSelf(true, ind, 1, ref, refOffset);
      return false;
    }

    /** An indirect block, or a hole where one could be. */
    method TryInd(ind: nat, ref: nat, refOffset: nat) returns (failed: bool)
      requires dev.Valid()
      modifies this
      ensures var v := Visit(dev, first, flags, 1, ind, ref, refOffset, old(bcount));
              Took(old(trace), v) && errcode == (if ind == 0 then old(errcode) else v.bad) && (failed <==> v.bad != None)
    {
      if ind == 0 {
        Bmap.Sizes(dev.limit);
        bcount := bcount + dev.limit;
        return false;
      }
      failed := IterateInd(ind, ref, refOffset);
    }

    /** The loop over the entries of a doubly indirect block. */
    method DindEntries(es: seq<nat>, dind: nat) returns (failed: bool)
      requires dev.Valid() && |es| == dev.limit && errcode == None
      modifies this
      ensures var v := VisitEntries(dev, first, flags, 1, es, 0, dind, old(bcount));
              Took(old(trace), v) && errcode == v.bad && (failed <==> v.bad != None)
    {
      var offset := 0;
      for i := 0 to dev.limit
        invariant offset == Offset(1, es, i) && errcode == None
        invariant Then(trace, VisitEntries(dev, first, flags, 1, es, i, dind, bcount))
               == Then(old(trace), VisitEntries(dev, first, flags, 1, es, 0, dind, old(bcount)))
      {
        ThenStep(dev, first, flags, 1, es, i, dind, bcount, trace);
        failed := TryInd(es[i], dind, offset);
        if failed {
          return;
        }
        if es[i] != 0 {
          offset := offset + WIDTH;
        }
      }
      assert trace + [] == trace;
      return false;
    }

    /** `block_iterate_dind`. */
    method IterateDind(dind: nat, ref: nat, refOffset: nat) returns (failed: bool)
      requires dev.Valid() && dind != 0
      modifies this
      ensures var v := Visit(dev, first, flags, 2, dind, ref, refOffset, old(bcount));
              Took(old(trace), v) && errcode == v.bad && (failed <==> v.bad != None)
    {
      CallSelf(false, dind, 2, ref, refOffset);
      if !Readable(dev, first, dind) {
        errcode := BadDind;
        return true;
      }
      errcode := None;
      failed := DindEntries(dev.Entries(dind), dind);
      CallSelf(true, dind, 2, ref, refOffset);
    }

    /** A doubly indirect block, or a hole where one could be. */
    method TryDind(dind: nat, ref: nat, refOffset: nat) returns (failed: bool)
      requires dev.Valid()
      modifies this
      ensures var v := Visit(dev, first, flags, 2, dind, ref, refOffset, old(bcount));
              Took(old(trace), v) && errcode == (if dind == 0 then old(errcode) else v.bad) && (failed <==> v.bad != None)
    {
      if dind == 0 {
        Bmap.Sizes(dev.limit);
        bcount := bcount + dev.limit * dev.limit;
        return false;
      }
      failed := IterateDind(dind, ref, refOffset);
    }

    /** The loop over the entries of a triply indirect block. */
    method TindEntries(es: seq<nat>, tind: nat) returns (failed: bool)
      requires dev.Valid() && |es| == dev.limit && errcode == None
      modifies this
      ensures var v := VisitEntries(dev, first, flags, 2, es, 0, tind, old(bcount));
              Took(old(trace), v) && errcode == v.bad && (failed <==> v.bad != None)
    {
      var offset := 0;
      for i := 0 to dev.limit
        invariant offset == Offset(2, es, i) && errcode == None
        invariant Then(trace, VisitEntries(dev, first, flags, 2, es, i, tind, bcount))
               == Then(old(trace), VisitEntries(dev, first, flags, 2, es, 0, tind, old(bcount)))
      {
        ThenStep(dev, first, flags, 2, es, i, tind, bcount, trace);
        failed := TryDind(es[i], tind, offset);
        if failed {
          return;
        }
        if es[i] != 0 {
          offset := offset + WIDTH;
        }
      }
      assert trace + [] == trace;
      return false;
    }

    /** `block_iterate_tind`. */
    method IterateTind(tind: nat, ref: nat, refOffset: nat) returns (failed: bool)
      requires dev.Valid() && tind != 0
      modifies this
      ensures var v := Visit(dev, first, flags, 3, tind, ref, refOffset, old(bcount));
              Took(old(trace), v) && errcode == v.bad && (failed <==> v.bad != None)
    {
      CallSelf(false, tind, 3, ref, refOffset);
      if !Readable(dev, first, tind) {
        errcode := BadTind;
        return true;
      }
      errcode := None;
      failed := TindEntries(dev.Entries(tind), tind);
      CallSelf(true, tind, 3, ref, refOffset);
    }

    /** `Iterate over normal data blocks`. */
    method IterateDirect(ptrs: seq<nat>)
      modifies `bcount, `trace
      ensures trace == old(trace) + DirectWalk(ptrs, 0, old(bcount)) && bcount == old(bcount) + |ptrs|
    {
      for i := 0 to |ptrs|
        invariant bcount == old(bcount) + i
        invariant trace + DirectWalk(ptrs, i, bcount) == old(trace) + DirectWalk(ptrs, 0, old(bcount))
      {
        if ptrs[i] != 0 {
          Call(ptrs[i], bcount, 0, i);
        }
        bcount := bcount + 1;
      }
    }

    /** A triply indirect block; nothing is counted for a hole. */
    method TryTind(tind: nat) returns (failed: bool)
      requires dev.Valid()
      modifies this
      ensures var v := Visit(dev, first, flags, 3, tind, 0, 14, old(bcount));
              trace == old(trace) + v.calls && errcode == (if tind == 0 then old(errcode) else v.bad) && (failed <==> v.bad != None)
    {
      failed := false;
      if tind != 0 {
        failed := IterateTind(tind, 0, 14);
      }
    }

    /** The pointers 12 to 14. */
    method IterateTrees(ind: nat, dind: nat, tind: nat) returns (failed: bool)
      requires dev.Valid() && errcode == None
      modifies this
      ensures trace == old(trace) + TreesCalls(dev, first, flags, ind, dind, tind, old(bcount))
      ensures (if failed then errcode else None) == LastBad(dev, first, flags, ind, dind, tind, old(bcount))
    {
      ghost var t, c := trace, bcount;
      var failedInd := TryInd(ind, 0, 12);
      ghost var c' := bcount;
      var failedDind := TryDind(dind, 0, 13);
      ghost var c'' := bcount;
      var failedTind := TryTind(tind);
      failed := failedInd || failedDind || failedTind;
      Regroup(t, Visit(dev, first, flags, 1, ind, 0, 12, c).calls, Visit(dev, first, flags, 2, dind, 0, 13, c').calls,
              Visit(dev, first, flags, 3, tind, 0, 14, c'').calls);
    }

    /**
     `ext2fs_block_iterate3`. When all index blocks may be read it makes the calls of FileWalk and
     returns no error; otherwise it returns an error only if the last tree it entered is bad, since each
     index block that can be read sets the error code back.
     */
    method Iterate(ib: seq<nat>) returns (code: Code)
      requires dev.Valid() && |ib| == NPTRS && bcount == 0 && trace == [] && errcode == None
      modifies this
      ensures trace == FileCalls(dev, first, flags, ib)
      ensures code == LastBad(dev, first, flags, ib[12], ib[13], ib[14], NDIR)
      ensures code == None <==> LastReadable(dev, first, ib[12], ib[13], ib[14])
      ensures TreesReadable(dev, first, ib[12], ib[13], ib[14]) ==> trace == FileWalk(dev, flags, ib)
    {
      IterateDirect(ib[..NDIR]);
      assert trace == DirectWalk(ib[..NDIR], 0, 0);
      var failed := IterateTrees(ib[12], ib[13], ib[14]);
      LastBadIs(dev, first, flags, ib[12], ib[13], ib[14], NDIR);
      AllAreWalked(dev, first, flags, ib);
      return if failed then errcode else None;
    }
  }

  /** The calls for three trees; each goes on counting where the one before it has left off. */
  function TreesCalls(d: Device, first: nat, fl: Flags, ind: nat, dind: nat, tind: nat, count: nat): (t: seq<Event>)
    requires d.Valid()
  {
    var v := Visit(d, first, fl, 1, ind, 0, 12, count);
    var w := Visit(d, first, fl, 2, dind, 0, 13, v.count);
    v.calls + w.calls + Visit(d, first, fl, 3, tind, 0, 14, w.count).calls
  }

  function FileCalls(d: Device, first: nat, fl: Flags, ib: seq<nat>): (t: seq<Event>)
    requires d.Valid() && |ib| == NPTRS
  {
    DirectWalk(ib[..NDIR], 0, 0) + TreesCalls(d, first, fl, ib[12], ib[13], ib[14], NDIR)
  }

  /** The error of the last tree that is there. */
  function LastBad(d: Device, first: nat, fl: Flags, ind: nat, dind: nat, tind: nat, count: nat): (code: Code)
    requires d.Valid()
  {
    var v := Visit(d, first, fl, 1, ind, 0, 12, count);
    var w := Visit(d, first, fl, 2, dind, 0, 13, v.count);
    var x := Visit(d, first, fl, 3, tind, 0, 14, w.count);
    if tind != 0 then x.bad else if dind != 0 then w.bad else v.bad
  }

  lemma ThenStep(d: Device, first: nat, fl: Flags, depth: nat, es: seq<nat>, i: nat, parent: nat, count: nat, t: seq<Event>)
    requires d.Valid() && i < |es|
    ensures var v := Visit(d, first, fl, depth, es[i], parent, Offset(depth, es, i), count);
            var rest := VisitEntries(d, first, fl, depth, es, i + 1, parent, v.count);
            var whole := VisitEntries(d, first, fl, depth, es, i, parent, count);
            Then(t, whole) == if v.bad != None then Then(t, v) else Then(t + v.calls, rest)
  {
  }

  /**
   A subtree is walked without an error exactly if all its index blocks may be read. It is walked as a whole then,
   and only then is everything counted that it could hold.
   */
  lemma {:induction false} VisitIs(d: Device, first: nat, fl: Flags, depth: nat, b: nat, ref: nat, off: nat, count: nat)
    requires d.Valid()
    ensures var v := Visit(d, first, fl, depth, b, ref, off, count);
            && (v.bad == None <==> AllReadable(d, first, depth, b))
            && (v.bad == None ==> v.calls == Walk(d, fl, depth, b, ref, off, count) && v.count == count + Size(d.limit, depth))
            && (v.bad != None ==> count <= v.count < count + Size(d.limit, depth))
    decreases depth, 0
  {
    SizePositive(d.limit, depth);
    if b != 0 && depth > 0 && Readable(d, first, b) {
      EntriesAre(d, first, fl, depth - 1, d.Entries(b), 0, b, count);
      MultipleIsProduct(Size(d.limit, depth - 1), d.limit);
      assert Size(d.limit, depth) == d.limit * Size(d.limit, depth - 1);
    }
  }

  lemma {:induction false} SizePositive(limit: nat, depth: nat)
    requires limit > 0
    ensures Size(limit, depth) > 0
  {
    if depth > 0 {
      SizePositive(limit, depth - 1);
    }
  }

  lemma {:induction false} EntriesAre(d: Device, first: nat, fl: Flags, depth: nat, es: seq<nat>, i: nat, parent: nat, count: nat)
    requires d.Valid() && i <= |es|
    ensures var v, m := VisitEntries(d, first, fl, depth, es, i, parent, count), Multiple(Size(d.limit, depth), |es| - i);
            && (v.bad == None <==> forall j :: i <= j < |es| ==> AllReadable(d, first, depth, es[j]))
            && (v.bad == None ==> v.calls == WalkEntries(d, fl, depth, es, i, parent, count) && v.count == count + m)
            && (v.bad != None ==> count <= v.count < count + m)
    decreases depth, |es| - i + 1
  {
    if i < |es| {
      var n := Size(d.limit, depth);
      VisitIs(d, first, fl, depth, es[i], parent, Offset(depth, es, i), count);
      assert Multiple(n, |es| - i) == Multiple(n, |es| - i - 1) + n;
      if AllReadable(d, first, depth, es[i]) {
        EntriesAre(d, first, fl, depth, es, i + 1, parent, count + n);
      }
    }
  }

  lemma LastBadIs(d: Device, first: nat, fl: Flags, ind: nat, dind: nat, tind: nat, count: nat)
    requires d.Valid()
    ensures LastBad(d, first, fl, ind, dind, tind, count) == None <==> LastReadable(d, first, ind, dind, tind)
  {
    var v := Visit(d, first, fl, 1, ind, 0, 12, count);
    var w := Visit(d, first, fl, 2, dind, 0, 13, v.count);
    VisitIs(d, first, fl, 1, ind, 0, 12, count);
    VisitIs(d, first, fl, 2, dind, 0, 13, v.count);
    VisitIs(d, first, fl, 3, tind, 0, 14, w.count);
  }

  lemma AllAreWalked(d: Device, first: nat, fl: Flags, ib: seq<nat>)
    requires d.Valid() && |ib| == NPTRS
    ensures TreesReadable(d, first, ib[12], ib[13], ib[14]) ==> FileCalls(d, first, fl, ib) == FileWalk(d, fl, ib)
  {
    if TreesReadable(d, first, ib[12], ib[13], ib[14]) {
      Bmap.Sizes(d.limit);
      VisitIs(d, first, fl, 1, ib[12], 0, 12, NDIR);
      VisitIs(d, first, fl, 2, ib[13], 0, 13, NDIR + d.limit);
      VisitIs(d, first, fl, 3, ib[14], 0, 14, NDIR + d.limit + d.limit * d.limit);
    }
  }

  /** The data behind a tree is numbered rightly if and only if all index blocks of the trees before it may be read. */
  lemma NumbersRight(d: Device, first: nat, fl: Flags, ib: seq<nat>)
    requires d.Valid() && |ib| == NPTRS
    ensures var v := Visit(d, first, fl, 1, ib[12], 0, 12, NDIR); var w := Visit(d, first, fl, 2, ib[13], 0, 13, v.count);
            && (v.count == NDIR + d.limit <==> AllReadable(d, first, 1, ib[12]))
            && (w.count == NDIR + d.limit + d.limit * d.limit
                <==> AllReadable(d, first, 1, ib[12]) && AllReadable(d, first, 2, ib[13]))
  {
    Bmap.Sizes(d.limit);
    VisitIs(d, first, fl, 1, ib[12], 0, 12, NDIR);
    VisitIs(d, first, fl, 2, ib[13], 0, 13, Visit(d, first, fl, 1, ib[12], 0, 12, NDIR).count);
  }

  /** The calls for the pointers from i on that lead straight to data. */
  function DirectWalk(ptrs: seq<nat>, i: nat, count: nat): (t: seq<Event>)
    requires i <= |ptrs|
    decreases |ptrs| - i
  {
    if i == |ptrs| then []
    else (if ptrs[i] == 0 then [] else [Event(ptrs[i], count, 0, i)]) + DirectWalk(ptrs, i + 1, count + 1)
  }

  function TreesWalk(d: Device, fl: Flags, ind: nat, dind: nat, tind: nat, count: nat): (t: seq<Event>)
    requires d.Valid()
  {
    Walk(d, fl, 1, ind, 0, 12, count)
    + Walk(d, fl, 2, dind, 0, 13, count + d.limit)
    + Walk(d, fl, 3, tind, 0, 14, count + d.limit + d.limit * d.limit)
  }

  function FileWalk(d: Device, fl: Flags, ib: seq<nat>): (t: seq<Event>)
    requires d.Valid() && |ib| == NPTRS
  {
    DirectWalk(ib[..NDIR], 0, 0) + TreesWalk(d, fl, ib[12], ib[13], ib[14], NDIR)
  }

  ghost predicate TreesReadable(d: Device, first: nat, ind: nat, dind: nat, tind: nat)
    requires d.Valid()
  {
    AllReadable(d, first, 1, ind) && AllReadable(d, first, 2, dind) && AllReadable(d, first, 3, tind)
  }

  /** The last of the three trees that is there may be read. */
  ghost predicate LastReadable(d: Device, first: nat, ind: nat, dind: nat, tind: nat)
    requires d.Valid()
  {
    if tind != 0 then AllReadable(d, first, 3, tind)
    else if dind != 0 then AllReadable(d, first, 2, dind)
    else AllReadable(d, first, 1, ind)
  }

  /** An indirect block that cannot be read goes unnoticed when a doubly indirect one can, whatever the size of a block. */
  lemma ErrorLost(limit: nat)
    requires limit > 0
    ensures var d := Device(limit, [seq(limit, i => 0), seq(limit, i => 0)]);
            d.Valid() && !TreesReadable(d, 1, 7, 1, 0) && LastReadable(d, 1, 7, 1, 0)
  {
    var d := Device(limit, [seq(limit, i => 0), seq(limit, i => 0)]);
    assert d.Entries(1) == seq(limit, i => 0);
  }

  /** Block 1 is an index block of index blocks, the first one of which is block 2, and that one begins with block 1. */
  function Shifted(limit: nat): (d: Device)
    requires limit > 0
    ensures d.Valid() && d.limit == limit && |d.blocks| == 3
    ensures d.Entries(1)[0] == 2 && d.Entries(2)[0] == 1 && forall i :: 0 < i < limit ==> d.Entries(1)[i] == 0
  {
    var zeroes := seq(limit, i => 0);
    Device(limit, [zeroes, zeroes[0 := 2], zeroes[0 := 1]])
  }

  /** No error is returned, but the block is called for as number 12, to which no pointer leads; it is number 12 + limit. */
  lemma ErrorShifts(limit: nat, fl: Flags, ib: seq<nat>)
    requires limit > 0 && ib == seq(NPTRS, i => if i == 12 then 7 else if i == 13 then 1 else 0)
    ensures var d := Shifted(limit);
            && LastBad(d, 1, fl, ib[12], ib[13], ib[14], NDIR) == None && Event(1, NDIR, 2, 0) in FileCalls(d, 1, fl, ib)
            && Mapped(d, ib, NDIR, 0) && Mapped(d, ib, NDIR + limit, 1)
  {
    var d := Shifted(limit);
    LastBadIs(d, 1, fl, 7, 1, 0, NDIR);
    assert AllReadable(d, 1, 2, 1);
    ShiftedCall(d, fl);
    ShiftedPointers(d, ib);
  }

  lemma ShiftedCall(d: Device, fl: Flags)
    requires d.Valid() && |d.blocks| == 3 && d.Entries(1)[0] == 2 && d.Entries(2)[0] == 1
    ensures Visit(d, 1, fl, 1, 7, 0, 12, NDIR).count == NDIR
    ensures Event(1, NDIR, 2, 0) in Visit(d, 1, fl, 2, 1, 0, 13, NDIR).calls
  {
    var e := Event(1, NDIR, 2, 0);
    assert Offset(0, d.Entries(2), 0) == 0;
    assert e in Visit(d, 1, fl, 0, 1, 2, 0, NDIR).calls;
    assert e in VisitEntries(d, 1, fl, 0, d.Entries(2), 0, 2, NDIR).calls;
    assert e in Visit(d, 1, fl, 1, 2, 1, 0, NDIR).calls;
    assert Offset(1, d.Entries(1), 0) == 0;
    assert e in VisitEntries(d, 1, fl, 1, d.Entries(1), 0, 1, NDIR).calls;
  }

  lemma ShiftedPointers(d: Device, ib: seq<nat>)
    requires d.Valid() && |d.blocks| == 3 && d.Entries(1)[0] == 2 && d.Entries(2)[0] == 1
    requires |ib| == NPTRS && ib[12] == 7 && ib[13] == 1
    ensures Mapped(d, ib, NDIR, 0) && Mapped(d, ib, NDIR + d.limit, 1)
  {
    Bmap.Sizes(d.limit);
    Bmap.TargetExists(d.limit, NDIR);
    Bmap.TargetExists(d.limit, NDIR + d.limit);
    ExpandOne(d, 7);
    ExpandOne(d, 1);
    ExpandAt(d, d.Entries(1), 0, 0);
    assert Level(d, 1, [7]) == d.Entries(7);
    assert Level(d, 2, [1]) == Expand(d, Level(d, 1, [1]));
  }

  function Multiple(m: nat, i: nat): (n: nat) {
    if i == 0 then 0 else Multiple(m, i - 1) + m
  }

  lemma {:induction false} MultipleIsProduct(m: nat, i: nat)
    ensures Multiple(m, i) == i * m
  {
    if i > 0 {
      MultipleIsProduct(m, i - 1);
    }
  }

  lemma Regroup(t: seq<Event>, a: seq<Event>, b: seq<Event>, c: seq<Event>)
    ensures t + a + b + c == t + (a + b + c)
  {
  }

  // ----- The walk and the map -----

  /** The calls for data, as pairs of a number in the file and a block. */
  function Data(t: seq<Event>): (ps: seq<(int, nat)>) {
    if t == [] then [] else DataOf(t[0]) + Data(t[1..])
  }

  function DataOf(e: Event): (ps: seq<(int, nat)>) {
    if e.count >= 0 then [(e.count, e.blk)] else []
  }

  /** The pairs for a list of pointers that are not 0, the first of which is number `count`. */
  function NonZero(s: seq<nat>, count: nat): (ps: seq<(int, nat)>) {
    if s == [] then [] else (if s[0] != 0 then [(count, s[0])] else []) + NonZero(s[1..], count + 1)
  }

  lemma Associative<T>(a: seq<T>, b: seq<T>, c: seq<T>)
    ensures a + (b + c) == a + b + c
  {
  }

  lemma {:induction false} DataConcat(t: seq<Event>, u: seq<Event>)
    ensures Data(t + u) == Data(t) + Data(u)
  {
    if t == [] {
      assert t + u == u;
    } else {
      calc {
        Data(t + u);
        { assert (t + u)[0] == t[0] && (t + u)[1..] == t[1..] + u; }
        DataOf(t[0]) + Data(t[1..] + u);
        { DataConcat(t[1..], u); }
        DataOf(t[0]) + (Data(t[1..]) + Data(u));
        { Associative(DataOf(t[0]), Data(t[1..]), Data(u)); }
        Data(t) + Data(u);
      }
    }
  }

  lemma {:induction false} NonZeroConcat(s: seq<nat>, t: seq<nat>, count: nat)
    ensures NonZero(s + t, count) == NonZero(s, count) + NonZero(t, count + |s|)
  {
    if s == [] {
      assert s + t == t;
    } else {
      var head := if s[0] != 0 then [(count as int, s[0])] else [];
      calc {
        NonZero(s + t, count);
        { assert (s + t)[0] == s[0] && (s + t)[1..] == s[1..] + t; }
        head + NonZero(s[1..] + t, count + 1);
        { NonZeroConcat(s[1..], t, count + 1); }
        head + (NonZero(s[1..], count + 1) + NonZero(t, count + |s|));
        { Associative(head, NonZero(s[1..], count + 1), NonZero(t, count + |s|)); }
        NonZero(s, count) + NonZero(t, count + |s|);
      }
    }
  }

  lemma {:induction false} NonZeroOfZeroes(s: seq<nat>, count: nat)
    requires Bmap.AllZero(s)
    ensures NonZero(s, count) == []
  {
    if s != [] {
      NonZeroOfZeroes(s[1..], count + 1);
    }
  }

  /** The other order: first the top level, then what is below its entries. */
  lemma {:induction false} LevelExpand(d: Device, k: nat, s: seq<nat>)
    requires d.Valid()
    ensures Level(d, k + 1, s) == Level(d, k, Expand(d, s))
  {
    if k > 0 {
      LevelExpand(d, k - 1, s);
    }
  }

  lemma {:induction false} LevelConcat(d: Device, k: nat, s: seq<nat>, t: seq<nat>)
    requires d.Valid()
    ensures Level(d, k, s + t) == Level(d, k, s) + Level(d, k, t)
  {
    if k > 0 {
      LevelConcat(d, k - 1, s, t);
      ExpandConcat(d, Level(d, k - 1, s), Level(d, k - 1, t));
    }
  }

  lemma ExpandOne(d: Device, b: nat)
    requires d.Valid()
    ensures Expand(d, [b]) == d.Entries(b)
  {
    assert [b][1..] == [];
  }

  /** The subtree at b is called for exactly where its pointers are not 0. */
  lemma {:induction false} WalkData(d: Device, fl: Flags, depth: nat, b: nat, ref: nat, off: nat, count: nat)
    requires d.Valid()
    ensures Data(Walk(d, fl, depth, b, ref, off, count)) == NonZero(Level(d, depth, [b]), count)
    decreases depth, 0
  {
    if b == 0 {
      Bmap.LevelZero(d, depth);
      NonZeroOfZeroes(Level(d, depth, [b]), count);
    } else if depth == 0 {
      assert [b][1..] == [] && [Event(b, count, ref, off)][1..] == [];
    } else {
      EntriesData(d, fl, depth - 1, d.Entries(b), 0, b, count);
      IndexData(d, fl, depth, b, ref, off, count);
    }
  }

  /** An index block is called for as its entries are. */
  lemma IndexData(d: Device, fl: Flags, depth: nat, b: nat, ref: nat, off: nat, count: nat)
    requires d.Valid() && depth > 0 && b != 0
    requires Data(WalkEntries(d, fl, depth - 1, d.Entries(b), 0, b, count))
          == NonZero(Level(d, depth - 1, d.Entries(b)[0..]), count)
    ensures Data(Walk(d, fl, depth, b, ref, off, count)) == NonZero(Level(d, depth, [b]), count)
  {
    var self := if fl.dataOnly then [] else [Event(b, 0 - depth, ref, off)];
    SelfData(self, WalkEntries(d, fl, depth - 1, d.Entries(b), 0, b, count));
    LevelExpand(d, depth - 1, [b]);
    ExpandOne(d, b);
    assert d.Entries(b)[0..] == d.Entries(b);
  }

  /** The call for the index block itself is not one for data. */
  lemma SelfData(self: seq<Event>, below: seq<Event>)
    requires self == [] || (|self| == 1 && self[0].count < 0)
    ensures Data(self + below) == Data(below) && Data(below + self) == Data(below)
  {
    DataConcat(self, below);
    DataConcat(below, self);
  }

  lemma {:induction false} EntriesData(d: Device, fl: Flags, depth: nat, es: seq<nat>, i: nat, parent: nat, count: nat)
    requires d.Valid() && i <= |es|
    ensures Data(WalkEntries(d, fl, depth, es, i, parent, count)) == NonZero(Level(d, depth, es[i..]), count)
    decreases depth, |es| - i + 1
  {
    if i == |es| {
      LevelNothing(d, depth);
      assert es[i..] == [];
    } else {
      WalkData(d, fl, depth, es[i], parent, Offset(depth, es, i), count);
      EntriesData(d, fl, depth, es, i + 1, parent, count + Size(d.limit, depth));
      EntryData(d, fl, depth, es, i, parent, count);
    }
  }

  /** The first of the remaining entries and the others. */
  lemma EntryData(d: Device, fl: Flags, depth: nat, es: seq<nat>, i: nat, parent: nat, count: nat)
    requires d.Valid() && i < |es|
    requires Data(Walk(d, fl, depth, es[i], parent, Offset(depth, es, i), count)) == NonZero(Level(d, depth, [es[i]]), count)
    requires Data(WalkEntries(d, fl, depth, es, i + 1, parent, count + Size(d.limit, depth)))
          == NonZero(Level(d, depth, es[i + 1..]), count + Size(d.limit, depth))
    ensures Data(WalkEntries(d, fl, depth, es, i, parent, count)) == NonZero(Level(d, depth, es[i..]), count)
  {
    LevelLength(d, depth, es[i]);
    LevelFrom(d, depth, es, i);
    TwoAgree(Walk(d, fl, depth, es[i], parent, Offset(depth, es, i), count),
             WalkEntries(d, fl, depth, es, i + 1, parent, count + Size(d.limit, depth)),
             Level(d, depth, [es[i]]), Level(d, depth, es[i + 1..]), count);
  }

  lemma LevelFrom(d: Device, depth: nat, es: seq<nat>, i: nat)
    requires d.Valid() && i < |es|
    ensures Level(d, depth, es[i..]) == Level(d, depth, [es[i]]) + Level(d, depth, es[i + 1..])
  {
    LevelConcat(d, depth, [es[i]], es[i + 1..]);
    assert es[i..] == [es[i]] + es[i + 1..];
  }

  lemma TwoAgree(t: seq<Event>, u: seq<Event>, s: seq<nat>, r: seq<nat>, count: nat)
    requires Data(t) == NonZero(s, count) && Data(u) == NonZero(r, count + |s|)
    ensures Data(t + u) == NonZero(s + r, count)
  {
    DataConcat(t, u);
    NonZeroConcat(s, r, count);
  }

  lemma {:induction false} LevelNothing(d: Device, k: nat)
    requires d.Valid()
    ensures Level(d, k, []) == []
  {
    if k > 0 {
      LevelNothing(d, k - 1);
    }
  }

  lemma {:induction false} DirectData(ptrs: seq<nat>, i: nat, count: nat)
    requires i <= |ptrs|
    ensures Data(DirectWalk(ptrs, i, count)) == NonZero(ptrs[i..], count)
    decreases |ptrs| - i
  {
    if i < |ptrs| {
      DirectData(ptrs, i + 1, count + 1);
      var one := if ptrs[i] == 0 then [] else [Event(ptrs[i], count, 0, i)];
      DataConcat(one, DirectWalk(ptrs, i + 1, count + 1));
      assert ptrs[i..][1..] == ptrs[i + 1..];
    }
  }

  /** All pointers to data, in the order of the file. */
  ghost function Pointers(d: Device, ib: seq<nat>): (s: seq<nat>)
    requires d.Valid() && |ib| == NPTRS
  {
    ib[..NDIR] + Level(d, 1, [ib[12]]) + Level(d, 2, [ib[13]]) + Level(d, 3, [ib[14]])
  }

  /** Number l of the pointers is the one ext2fs_bmap2 comes to. */
  lemma PointersAt(d: Device, ib: seq<nat>, l: nat)
    requires d.Valid() && |ib| == NPTRS && l < Bmap.MapEnd(d.limit)
    ensures |Pointers(d, ib)| == Bmap.MapEnd(d.limit)
    ensures Exists(d.limit, Bmap.Target(d.limit, l)) && Pointers(d, ib)[l] == Val(d, ib, Bmap.Target(d.limit, l))
  {
    Bmap.Sizes(d.limit);
    Bmap.TargetExists(d.limit, l);
    LevelLength(d, 1, ib[12]);
    LevelLength(d, 2, ib[13]);
    LevelLength(d, 3, ib[14]);
    FourParts(ib[..NDIR], Level(d, 1, [ib[12]]), Level(d, 2, [ib[13]]), Level(d, 3, [ib[14]]), d.limit, d.limit * d.limit, l);
  }

  lemma FourParts<T>(a: seq<T>, b: seq<T>, c: seq<T>, e: seq<T>, m: nat, n: nat, l: nat)
    requires |a| == NDIR && |b| == m && |c| == n && l < |a| + |b| + |c| + |e|
    ensures (a + b + c + e)[l] == if l < NDIR then a[l] else if l - NDIR < m then b[l - NDIR]
                                  else if l - NDIR - m < n then c[l - NDIR - m] else e[l - NDIR - m - n]
  {
  }

  lemma FileData(d: Device, fl: Flags, ib: seq<nat>)
    requires d.Valid() && |ib| == NPTRS
    ensures Data(FileWalk(d, fl, ib)) == NonZero(Pointers(d, ib), 0)
  {
    var ptrs, n, n' := ib[..NDIR], NDIR + d.limit, NDIR + d.limit + d.limit * d.limit;
    DirectData(ptrs, 0, 0);
    assert ptrs[0..] == ptrs;
    TreeData(d, fl, 1, ib[12], 12, NDIR);
    TreeData(d, fl, 2, ib[13], 13, n);
    TreeData(d, fl, 3, ib[14], 14, n');
    var t0, t1 := DirectWalk(ptrs, 0, 0), Walk(d, fl, 1, ib[12], 0, 12, NDIR);
    var t2, t3 := Walk(d, fl, 2, ib[13], 0, 13, n), Walk(d, fl, 3, ib[14], 0, 14, n');
    var s1, s2, s3 := Level(d, 1, [ib[12]]), Level(d, 2, [ib[13]]), Level(d, 3, [ib[14]]);
    FourAgree(t0, t1, t2, t3, ptrs, s1, s2, s3);
    InParts(d, fl, ib, ptrs, n, n');
  }

  lemma InParts(d: Device, fl: Flags, ib: seq<nat>, ptrs: seq<nat>, n: nat, n': nat)
    requires d.Valid() && |ib| == NPTRS && ptrs == ib[..NDIR] && n == NDIR + d.limit && n' == NDIR + d.limit + d.limit * d.limit
    ensures FileWalk(d, fl, ib) ==
            DirectWalk(ptrs, 0, 0) +
            (Walk(d, fl, 1, ib[12], 0, 12, NDIR) + Walk(d, fl, 2, ib[13], 0, 13, n) + Walk(d, fl, 3, ib[14], 0, 14, n'))
    ensures Pointers(d, ib) == ptrs + Level(d, 1, [ib[12]]) + Level(d, 2, [ib[13]]) + Level(d, 3, [ib[14]])
  {
  }

  lemma TreeData(d: Device, fl: Flags, depth: nat, b: nat, off: nat, count: nat)
    requires d.Valid()
    ensures Data(Walk(d, fl, depth, b, 0, off, count)) == NonZero(Level(d, depth, [b]), count)
    ensures |Level(d, depth, [b])| == Size(d.limit, depth)
    ensures Size(d.limit, 1) == d.limit && Size(d.limit, 2) == d.limit * d.limit
  {
    WalkData(d, fl, depth, b, 0, off, count);
    LevelLength(d, depth, b);
    Bmap.Sizes(d.limit);
  }

  lemma FourAgree(t0: seq<Event>, t1: seq<Event>, t2: seq<Event>, t3: seq<Event>,
                  s0: seq<nat>, s1: seq<nat>, s2: seq<nat>, s3: seq<nat>)
    requires Data(t0) == NonZero(s0, 0) && Data(t1) == NonZero(s1, |s0|)
    requires Data(t2) == NonZero(s2, |s0| + |s1|) && Data(t3) == NonZero(s3, |s0| + |s1| + |s2|)
    ensures Data(t0 + (t1 + t2 + t3)) == NonZero(s0 + s1 + s2 + s3, 0)
  {
    DataFour(t0, t1, t2, t3);
    NonZeroFour(s0, s1, s2, s3);
  }

  lemma DataFour(a: seq<Event>, b: seq<Event>, c: seq<Event>, e: seq<Event>)
    ensures Data(a + (b + c + e)) == Data(a) + Data(b) + Data(c) + Data(e)
  {
    DataConcat(a, b + c + e);
    DataConcat(b + c, e);
    DataConcat(b, c);
  }

  lemma NonZeroFour(a: seq<nat>, b: seq<nat>, c: seq<nat>, e: seq<nat>)
    ensures NonZero(a + b + c + e, 0)
         == NonZero(a, 0) + NonZero(b, |a|) + NonZero(c, |a| + |b|) + NonZero(e, |a| + |b| + |c|)
  {
    NonZeroConcat(a + b + c, e, 0);
    NonZeroConcat(a + b, c, 0);
    NonZeroConcat(a, b, 0);
  }

  /** The call names the place the block number was read from. */
  ghost predicate PlaceRight(d: Device, e: Event)
    requires d.Valid()
  {
    exists i :: 0 <= i < d.limit && e.offset == WIDTH * i && d.Entries(e.ref)[i] == e.blk
  }

  /** Every call for data behind an index block names the right place, holes or not. */
  lemma {:induction false} DataPlaceRight(d: Device, fl: Flags, depth: nat, b: nat, ref: nat, off: nat, count: nat, e: Event)
    requires d.Valid() && depth > 0 && e in Walk(d, fl, depth, b, ref, off, count) && e.count >= 0
    ensures PlaceRight(d, e)
    decreases depth, 0
  {
    EntriesPlaceRight(d, fl, depth - 1, 0, b, count, e);
  }

  lemma {:induction false} EntriesPlaceRight(d: Device, fl: Flags, depth: nat, i: nat, parent: nat, count: nat, e: Event)
    requires d.Valid() && i <= d.limit && e in WalkEntries(d, fl, depth, d.Entries(parent), i, parent, count) && e.count >= 0
    ensures PlaceRight(d, e)
    decreases depth, d.limit - i + 1
  {
    var es := d.Entries(parent);
    var off := Offset(depth, es, i);
    if e !in Walk(d, fl, depth, es[i], parent, off, count) {
      EntriesPlaceRight(d, fl, depth, i + 1, parent, count + Size(d.limit, depth), e);
    } else if depth > 0 {
      DataPlaceRight(d, fl, depth, es[i], parent, off, count, e);
    } else {
      OffsetRight(depth, es, i);
    }
  }

  // ----- What a list of pairs says -----

  lemma {:induction false} NonZeroMember(s: seq<nat>, count: nat, l: int, b: nat)
    ensures (l, b) in NonZero(s, count) <==> count <= l < count + |s| && s[l - count] == b && b != 0
  {
    if s != [] {
      NonZeroMember(s[1..], count + 1, l, b);
      var head := if s[0] != 0 then [(count as int, s[0])] else [];
      assert NonZero(s, count) == head + NonZero(s[1..], count + 1);
      assert (l, b) in NonZero(s, count) <==> (l, b) in head || (l, b) in NonZero(s[1..], count + 1);
    }
  }

  ghost predicate Increasing(ps: seq<(int, nat)>) {
    forall i, j :: 0 <= i < j < |ps| ==> ps[i].0 < ps[j].0
  }

  lemma {:induction false} NonZeroIncreasing(s: seq<nat>, count: nat)
    ensures Increasing(NonZero(s, count))
    ensures forall i :: 0 <= i < |NonZero(s, count)| ==> NonZero(s, count)[i].0 >= count
  {
    if s != [] {
      NonZeroIncreasing(s[1..], count + 1);
    }
  }

  lemma MappedAt(d: Device, ib: seq<nat>, l: nat, b: nat)
    requires d.Valid() && |ib| == NPTRS
    ensures Mapped(d, ib, l, b) <==> l < |Pointers(d, ib)| && Pointers(d, ib)[l] == b
  {
    PointersAt(d, ib, 0);
    if l < Bmap.MapEnd(d.limit) {
      PointersAt(d, ib, l);
    }
  }

  /** The data calls of the walk are the pairs (l, block) where a pointer leads to a block. */
  lemma WalkAgreesWithBmap(d: Device, fl: Flags, ib: seq<nat>, l: nat, b: nat)
    requires d.Valid() && |ib| == NPTRS
    ensures (l, b) in Data(FileWalk(d, fl, ib)) <==> b != 0 && Mapped(d, ib, l, b)
  {
    FileData(d, fl, ib);
    PointersMember(d, ib, l, b);
  }

  lemma PointersMember(d: Device, ib: seq<nat>, l: nat, b: nat)
    requires d.Valid() && |ib| == NPTRS
    ensures (l, b) in NonZero(Pointers(d, ib), 0) <==> b != 0 && Mapped(d, ib, l, b)
  {
    NonZeroMember(Pointers(d, ib), 0, l, b);
    MappedAt(d, ib, l, b);
  }

  /** They come once each and in increasing order. */
  lemma WalkIncreasing(d: Device, fl: Flags, ib: seq<nat>)
    requires d.Valid() && |ib| == NPTRS
    ensures Increasing(Data(FileWalk(d, fl, ib)))
  {
    FileData(d, fl, ib);
    NonZeroIncreasing(Pointers(d, ib), 0);
  }

  /** The pointer for block l of the file is b: see Bmap.File.Map. */
  ghost predicate Mapped(d: Device, ib: seq<nat>, l: nat, b: nat)
    requires d.Valid() && |ib| == NPTRS
  {
    l < Bmap.MapEnd(d.limit) && Exists(d.limit, Bmap.Target(d.limit, l)) && Val(d, ib, Bmap.Target(d.limit, l)) == b
  }

  /**
   The two ways agree: wherever `ext2fs_bmap2` gives an answer, which it does for every block number below
   2^32 - 1 that a file may have, the walk makes a call for exactly the block it answers, and none if that is 0.
   */
  method BothWays(f: Bmap.File, first: nat, fl: Flags, l: nat)
    returns (err: Bmap.Error, ret: nat, code: Code, trace: seq<Event>)
    requires f.Sound()
    modifies f
    ensures f.Sound() && f.dev == old(f.dev) && f.ib == old(f.ib)
    ensures err == Bmap.Ok <==> l < 0xFFFF_FFFF && l < Bmap.MapEnd(f.dev.limit)
    ensures code == None <==> LastReadable(f.dev, first, f.ib[12], f.ib[13], f.ib[14])
    ensures TreesReadable(f.dev, first, f.ib[12], f.ib[13], f.ib[14]) ==>
              (err == Bmap.Ok ==> forall b: nat :: (l, b) in Data(trace) <==> b != 0 && b == ret) && Increasing(Data(trace))
  {
    var ctx := new Context(f.dev, first, fl);
    code := ctx.Iterate(f.ib);
    trace := ctx.trace;
    WalkIncreasing(f.dev, fl, f.ib);
    ghost var d, ib := f.dev, f.ib;
    err, ret := f.Bmap2(false, false, l, 0, 0);
    if err == Bmap.Ok {
      forall b: nat ensures (l, b) in Data(FileWalk(d, fl, ib)) <==> b != 0 && b == ret {
        WalkAgreesWithBmap(d, fl, ib, l, b);
        Bmap.TargetExists(d.limit, l);
      }
    }
  }
}
