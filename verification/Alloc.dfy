/**
 Model of libext2fs/alloc.c: how blocks and ranges of blocks are found in the bitmap and taken.
 */
module Alloc {
  import opened Runs
  import opened GenBitmap
  import opened FreeCount
  import opened AllocStats
  import RangeSearch

  datatype Error = Ok | AllocFail | InvalidArgument | BadRange

  /** The block may be had: its cluster is clear. */
  ghost predicate Clear(fs: FileSystem, b: nat)
    requires fs.bm.Valid()
    reads fs.bm.ba.bits
  {
    fs.bm.Like(false, b)
  }

  ghost predicate NoneClear(fs: FileSystem, start: nat, end: nat)
    requires fs.bm.Valid()
    reads fs.bm.ba.bits
  {
    forall b: nat :: start <= b < end ==> !Clear(fs, b)
  }

  /** All blocks of the file system are in the bitmap. */
  lemma InsideAll(fs: FileSystem, b: nat)
    requires fs.Shaped() && fs.first <= b < fs.blocks
    ensures fs.bm.Inside(b)
  {
    fs.IndexInside(b);
  }

  /** The first block of the cluster of b: `b & ~EXT2FS_CLUSTER_MASK(fs)`. */
  function Floor(fs: FileSystem, b: nat): (f: nat)
    requires fs.bm.Valid()
    ensures f <= b
  {
    ClusterBounds(fs.bm.ratio, b);
    Base(fs.bm.ratio, Cluster(fs.bm.ratio, b))
  }

  /** `!goal || goal >= ext2fs_blocks_count(fs->super)`. */
  function Goal(fs: FileSystem, goal: nat): (g: nat) {
    if goal == 0 || goal >= fs.blocks then fs.first else goal
  }

  /** No block from g on comes before b, the search beginning anew at the first block of all. */
  ghost predicate FirstFrom(fs: FileSystem, g: nat, b: nat)
    requires fs.bm.Valid()
    reads fs, fs.bm.ba.bits
  {
    if b >= g then NoneClear(fs, g, b) else NoneClear(fs, g, fs.blocks) && NoneClear(fs, fs.first, b)
  }

  /**
   `ext2fs_new_block3`: the first clear block from the cluster of the goal on, or else the first before
   it; none only if the file system is full.
   */
  method NewBlock(fs: FileSystem, goal: nat, base: nat) returns (err: Error, b: nat)
    requires fs.Shaped()
    ensures err == BadRange <==> 0 < goal < fs.first
    ensures err in {Ok, AllocFail, BadRange}
    ensures err == Ok ==> fs.first <= b < fs.blocks && Clear(fs, b)
    ensures err == AllocFail ==> NoneClear(fs, fs.first, fs.blocks)
    ensures err == Ok ==> FirstFrom(fs, if goal == 0 || goal >= fs.blocks then fs.first else Floor(fs, goal), b)
  {
    FirstAligned(fs);
    var g := Floor(fs, Goal(fs, goal));
    InsideAll(fs, fs.first);
    InsideAll(fs, fs.blocks - 1);
    GoalInside(fs, Goal(fs, goal));
    var out := fs.bm.FindFirst(false, g, fs.blocks - 1, base);
    if out == Invalid {
      return BadRange, 0;
    }
    if out == Nowhere && g != fs.first {
      InsideAll(fs, g - 1);
      out := fs.bm.FindFirst(false, fs.first, g - 1, base);
    }
    if out == Nowhere {
      return AllocFail, 0;
    }
    return Ok, out.bit;
  }

  /** Rounding down keeps a block on its side of the first one. */
  lemma GoalInside(fs: FileSystem, g: nat)
    requires fs.Shaped() && g < fs.blocks
    ensures g >= fs.first <==> fs.bm.Inside(Floor(fs, g))
    ensures g >= fs.first ==> fs.first <= Floor(fs, g)
  {
    Galois(fs.bm.ratio, g, fs.bm.start);
    ClusterBase(fs.bm.ratio, Cluster(fs.bm.ratio, g));
    if g >= fs.first {
      InsideAll(fs, g);
      BaseMonotone(fs.bm.ratio, fs.bm.start, Cluster(fs.bm.ratio, g));
    }
  }

  /** `ext2fs_alloc_block3`, as far as the bitmap and the counters go. */
  method AllocBlock(fs: FileSystem, goal: nat, base: nat) returns (err: Error, b: nat, ghost k: nat)
    requires fs.Valid()
    modifies fs, fs.bm.ba.bits
    ensures fs.Valid()
    ensures err != Ok ==> fs.Bits() == old(fs.Bits())
    ensures err in {Ok, AllocFail, BadRange} && (err == BadRange <==> 0 < goal < fs.first)
    ensures err == AllocFail ==> RangeSearch.NoneIn(old(ClearMap(fs)), fs.first, fs.blocks)
    ensures err == Ok ==> fs.first <= b < fs.blocks && k == fs.Index(b) && k < fs.Clusters()
    ensures err == Ok ==> BlockFor(fs, old(ClearMap(fs)), goal, b)
    ensures err == Ok ==> !old(fs.Bits()[k]) && fs.Bits() == old(fs.Bits())[k := true]
  {
    err, b := NewBlock(fs, goal, base);
    k := 0;
    if err != Ok {
      return;
    }
    FirstIsRun(fs, if goal == 0 || goal >= fs.blocks then fs.first else Floor(fs, goal), b);
    fs.IndexInside(b);
    k := fs.Index(b);
    fs.Stats(b, 1, k);
  }

  /** The first clear block is the first run of one block. */
  lemma FirstIsRun(fs: FileSystem, g: nat, b: nat)
    requires fs.Shaped() && b < fs.blocks && FirstFrom(fs, g, b)
    ensures RangeSearch.FirstRun(ClearMap(fs), 1, fs.first, g, b)
  {
    var s := ClearMap(fs);
    if b >= g {
      NoneIsNoRun(fs, g, b);
    } else {
      NoneIsNoRun(fs, g, fs.blocks);
      NoneIsNoRun(fs, fs.first, b);
    }
  }

  lemma NoneIsNoRun(fs: FileSystem, lo: nat, hi: nat)
    requires fs.Shaped() && hi <= fs.blocks && NoneClear(fs, lo, hi)
    ensures RangeSearch.NoRun(ClearMap(fs), 1, lo, hi)
  {
    var s := ClearMap(fs);
    forall p: nat | lo <= p < hi ensures !RangeSearch.RunAt(s, p, 1) {
      assert !s[p];
    }
  }

  // ----- Ranges -----

  /** The blocks that may be had. */
  ghost function ClearMap(fs: FileSystem): (s: seq<bool>)
    requires fs.Shaped()
    reads fs`groupFree, fs.bm.ba.bits
    ensures |s| == fs.blocks
    ensures forall b :: 0 <= b < |s| ==> s[b] == Clear(fs, b)
  {
    seq(fs.blocks, b requires 0 <= b reads fs.bm.ba.bits => Clear(fs, b))
  }

  lemma {:induction false} FirstLikeIs(s: seq<bool>, v: bool, i: nat, end: nat, z: nat)
    requires i <= z <= end <= |s| && (z < end ==> s[z] == v)
    requires forall k :: i <= k < z ==> s[k] == !v
    ensures RangeSearch.FirstLike(s, v, i, end) == z
    decreases end - i
  {
    if i < z {
      FirstLikeIs(s, v, i + 1, end, z);
    }
  }

  /** `ext2fs_find_first_zero_block_bitmap2` and its counterpart, on the blocks from..end of the file system. */
  method Find(fs: FileSystem, clear: bool, from: nat, end: nat, base: nat) returns (z: nat)
    requires fs.Shaped() && fs.first <= from < end <= fs.blocks
    ensures z == RangeSearch.FirstLike(ClearMap(fs), clear, from, end)
  {
    InsideAll(fs, from);
    InsideAll(fs, end - 1);
    var out := fs.bm.FindFirst(!clear, from, end - 1, base);
    z := if out.At? then out.bit else end;
    forall k | from <= k < end ensures ClearMap(fs)[k] == clear <==> fs.bm.Like(!clear, k) {
      InsideAll(fs, k);
    }
    FirstLikeIs(ClearMap(fs), clear, from, end, z);
  }

  /** One turn of the loop of `ext2fs_new_range`. */
  method RangeTurn(fs: FileSystem, fl: RangeSearch.Flags, goal: nat, len: nat, start: nat, looped: bool, base: nat)
    returns (o: RangeSearch.Outcome)
    requires fs.Shaped() && fs.first <= start < fs.blocks && len > 0
    ensures o == RangeSearch.Turn(ClearMap(fs), fs.first, fl, goal, len, start, looped)
  {
    var z := Find(fs, true, start, fs.blocks, base);
    if z == fs.blocks {
      return if fl.fixedGoal || start == fs.first then RangeSearch.Fail else RangeSearch.Again(fs.first, looped);
    }
    if fl.fixedGoal && z != goal {
      return RangeSearch.Fail;
    }
    o := RangeTurnAt(fs, fl, len, z, looped, base);
  }

  /** The second half of the turn: z is clear. */
  method RangeTurnAt(fs: FileSystem, fl: RangeSearch.Flags, len: nat, z: nat, looped: bool, base: nat)
    returns (o: RangeSearch.Outcome)
    requires fs.Shaped() && fs.first <= z < fs.blocks && len > 0
    ensures o == RangeSearch.TurnAt(ClearMap(fs), fs.first, fl, len, z, looped)
  {
    var e := Find(fs, false, z, RangeSearch.Min(z + len, fs.blocks), base);
    if !fl.minLength || e - z >= len {
      return RangeSearch.Found(z, e - z);
    }
    if fl.fixedGoal {
      return RangeSearch.Fail;
    }
    if e < fs.blocks {
      return RangeSearch.Again(e, looped);
    }
    return if looped then RangeSearch.Fail else RangeSearch.Again(fs.first, true);
  }

  /** The same turn, seen from the whole search; a search that has begun anew does not do so again. */
  method RangeNext(fs: FileSystem, fl: RangeSearch.Flags, goal: nat, len: nat, start: nat, looped: bool, ghost again: bool,
                   base: nat)
    returns (o: RangeSearch.Outcome, ghost again': bool)
    requires fs.Shaped() && !RangeSearch.Hangs(ClearMap(fs), fs.first, fl, len)
    requires RangeSearch.Searching(ClearMap(fs), fs.first, fl, goal, len, start, looped, again)
    ensures !o.Again? ==> RangeSearch.Right(ClearMap(fs), fs.first, fl, goal, len, o)
    ensures o.Again? ==> RangeSearch.Searching(ClearMap(fs), fs.first, fl, goal, len, o.next, o.looped, again')
    ensures o.Again? ==> if again' == again then o.next > start else again'
    ensures Floor(fs, start) == start ==> (o.Found? ==> Floor(fs, o.start) == o.start) && (o.Again? ==> Floor(fs, o.next) == o.next)
  {
    again' := RangeSearch.TurnRight(ClearMap(fs), fs.first, fl, goal, len, start, looped, again);
    TurnAligned(fs, fl, goal, len, start, looped);
    o := RangeTurn(fs, fl, goal, len, start, looped, base);
  }

  /**
   `ext2fs_new_range`, where its loop ends: a range of clear blocks as asked for, and a failure only if there
   is none.
   */
  method NewRange(fs: FileSystem, fl: RangeSearch.Flags, goal: nat, len: nat, base: nat) returns (err: Error, pblk: nat, plen: nat)
    requires fs.Shaped()
    requires !RangeSearch.Hangs(ClearMap(fs), fs.first, fl, len)
    ensures err == InvalidArgument <==> len == 0
    ensures err == BadRange <==> len > 0 && 0 < goal < fs.first
    ensures err == Ok || err == AllocFail ==> fs.first <= Goal(fs, goal) < fs.blocks
    ensures Goal(fs, goal) == if goal == 0 || goal >= fs.blocks then fs.first else goal
    ensures err == Ok ==>
              RangeSearch.Right(ClearMap(fs), fs.first, fl, Goal(fs, goal), len, RangeSearch.Found(pblk, plen))
    ensures err == AllocFail ==>
              RangeSearch.Right(ClearMap(fs), fs.first, fl, Goal(fs, goal), len, RangeSearch.Fail)
    ensures err == Ok && Floor(fs, Goal(fs, goal)) == Goal(fs, goal) ==> Floor(fs, pblk) == pblk
  {
    if len == 0 {
      return InvalidArgument, 0, 0;
    }
    var g := Goal(fs, goal);
    if g < fs.first {
      return BadRange, 0, 0;
    }
    ghost var s := ClearMap(fs);
    var start: nat, looped := g, false;
    ghost var again := false;
    FirstAligned(fs);
    while !looped || start <= g
      invariant RangeSearch.Searching(s, fs.first, fl, g, len, start, looped, again)
      invariant Floor(fs, g) == g ==> Floor(fs, start) == start
      decreases if again then 0 else 1, fs.blocks - start
    {
      var o;
      o, again := RangeNext(fs, fl, g, len, start, looped, again, base);
      if o.Found? {
        return Ok, o.start, o.len;
      } else if o.Fail? {
        return AllocFail, 0, 0;
      }
      start, looped := o.next, o.looped;
    }
    RangeSearch.LoopEnds(s, fs.first, fl, g, len, start);
    return AllocFail, 0, 0;
  }

  lemma FirstAligned(fs: FileSystem)
    requires fs.Shaped()
    ensures Floor(fs, fs.first) == fs.first
  {
    ClusterBase(fs.bm.ratio, fs.bm.start);
  }

  /** Where a block is clear and the one before it is not, a cluster begins. */
  lemma EdgeAligned(fs: FileSystem, b: nat)
    requires fs.Shaped() && fs.first < b < fs.blocks && Clear(fs, b) != Clear(fs, b - 1)
    ensures Floor(fs, b) == b
  {
    var r := fs.bm.ratio;
    InsideAll(fs, b);
    InsideAll(fs, b - 1);
    ClusterBounds(r, b);
    if Floor(fs, b) < b {
      ClusterOf(r, b - 1, Cluster(r, b));
    }
  }

  /** From the beginning of a cluster, a turn leads to the beginning of one. */
  lemma TurnAligned(fs: FileSystem, fl: RangeSearch.Flags, goal: nat, len: nat, start: nat, looped: bool)
    requires fs.Shaped() && fs.first <= start < fs.blocks && len > 0
    ensures var o := RangeSearch.Turn(ClearMap(fs), fs.first, fl, goal, len, start, looped);
            Floor(fs, start) == start ==>
              && (o.Found? ==> Floor(fs, o.start) == o.start)
              && (o.Again? ==> Floor(fs, o.next) == o.next)
  {
    var s := ClearMap(fs);
    FirstAligned(fs);
    var z := RangeSearch.FirstLike(s, true, start, |s|);
    if start < z < |s| {
      EdgeAligned(fs, z);
    }
    if z < |s| {
      var e := RangeSearch.FirstLike(s, false, z, RangeSearch.Min(z + len, |s|));
      if e < |s| && e - z < len {
        EdgeAligned(fs, e);
      }
    }
  }

  /** A range of clear blocks from the beginning of a cluster on, as long as m clusters, is m clear clusters. */
  lemma RangeClusters(fs: FileSystem, pblk: nat, len: nat, m: nat) returns (c: nat)
    requires fs.Shaped() && fs.first <= pblk && Floor(fs, pblk) == pblk && len == Base(fs.bm.ratio, m) && m > 0
    requires RangeSearch.RunAt(ClearMap(fs), pblk, len)
    ensures fs.WholeClusters(pblk, len, c, c + m)
    ensures forall k :: c <= k < c + m ==> !fs.Bits()[k]
  {
    var r := fs.bm.ratio;
    BaseStrict(r, 0, m);
    c := fs.Index(pblk);
    ClusterAt(fs, pblk, c);
    BaseAdd(r, c, m);
    LastFits(fs, c + m);
    forall k | c <= k < c + m ensures !fs.Bits()[k] {
      var b := fs.first + Base(r, k);
      BaseMonotone(r, c, k);
      BaseStrict(r, k, c + m);
      ClusterAt(fs, b, k);
      assert ClearMap(fs)[b];
    }
  }

  /** The block at the beginning of cluster k. */
  lemma ClusterAt(fs: FileSystem, b: nat, k: nat)
    requires fs.Shaped() && b >= fs.first && (b == fs.first + Base(fs.bm.ratio, k) || (Floor(fs, b) == b && k == fs.Index(b)))
    ensures b == fs.first + Base(fs.bm.ratio, k) && fs.Index(b) == k && Cluster(fs.bm.ratio, b) == fs.bm.start + k
  {
    BaseAdd(fs.bm.ratio, fs.bm.start, k);
    ClusterBase(fs.bm.ratio, fs.bm.start + k);
  }

  lemma LastFits(fs: FileSystem, e: nat)
    requires fs.Shaped() && e > 0 && fs.first + Base(fs.bm.ratio, e) <= fs.blocks
    ensures e <= fs.Clusters()
  {
    BaseAdd(fs.bm.ratio, fs.bm.start, e - 1);
    Galois(fs.bm.ratio, fs.blocks - 1, fs.bm.start + e - 1);
  }

  /**
   `ext2fs_alloc_range` of m clusters, with a goal at the beginning of one: the clusters were clear and are
   set, and nothing else changes.
   */
  method AllocRange(fs: FileSystem, fixedGoal: bool, goal: nat, len: nat, base: nat, ghost m: nat)
    returns (err: Error, pblk: nat, ghost c: nat)
    requires fs.Valid() && len == Base(fs.bm.ratio, m) && Floor(fs, Goal(fs, goal)) == Goal(fs, goal)
    requires !RangeSearch.Hangs(ClearMap(fs), fs.first, RangeSearch.Flags(fixedGoal, true), len)
    modifies fs, fs.bm.ba.bits
    ensures fs.Valid()
    ensures err != Ok ==> fs.Bits() == old(fs.Bits())
    ensures err in {Ok, AllocFail, BadRange, InvalidArgument}
    ensures (err == InvalidArgument <==> m == 0) && (err == BadRange <==> m > 0 && 0 < goal < fs.first)
    ensures err == Ok || err == AllocFail ==>
              var g := if goal == 0 || goal >= fs.blocks then fs.first else goal;
              fs.first <= g < fs.blocks &&
              old(RangeSearch.Right(ClearMap(fs), fs.first, RangeSearch.Flags(fixedGoal, true), g, len,
                                    if err == Ok then RangeSearch.Found(pblk, len) else RangeSearch.Fail))
    ensures err == Ok ==> fs.WholeClusters(pblk, len, c, c + m) && Flipped(old(fs.Bits()), fs.Bits(), c, c + m, true)
  {
    var plen;
    err, pblk, plen := NewRange(fs, RangeSearch.Flags(fixedGoal, true), goal, len, base);
    c := 0;
    if err != Ok {
      return;
    }
    if plen < len {
      assert false;
    }
    BaseStrict(fs.bm.ratio, 0, m);
    c := RangeClusters(fs, pblk, len, m);
    fs.StatsRange(pblk, len, 1, c, c + m);
  }

  // ----- Runs of operations -----

  /** Clusters c..e that are in the hands of a caller. */
  datatype Live = Live(c: nat, e: nat)

  datatype Op =
    | TakeBlock(goal: nat)
    | TakeRange(goal: nat, m: nat, fixedGoal: bool)
    | Give(i: nat)

  /** The goal for a range from cluster gc on. */
  function RangeGoal(fs: FileSystem, gc: nat): (g: nat)
    requires fs.bm.Valid() && fs.first < fs.blocks
    ensures fs.first <= g < fs.blocks
  {
    var goal := fs.first + Base(fs.bm.ratio, gc);
    if goal >= fs.blocks then fs.first else goal
  }

  /** Of the clear blocks s, b is the first from the cluster of the goal on, or else the first before it. */
  ghost predicate BlockFor(fs: FileSystem, s: seq<bool>, goal: nat, b: nat)
    requires fs.bm.Valid()
  {
    && fs.first <= b < |s| && s[b]
    && RangeSearch.FirstRun(s, 1, fs.first, if goal == 0 || goal >= fs.blocks then fs.first else Floor(fs, goal), b)
  }

  /** The search for m clusters from cluster gc on comes to this. */
  ghost predicate RangeFor(fs: FileSystem, s: seq<bool>, gc: nat, m: nat, fixedGoal: bool, o: RangeSearch.Outcome)
    requires fs.bm.Valid() && fs.first < fs.blocks == |s|
  {
    RangeSearch.Right(s, fs.first, RangeSearch.Flags(fixedGoal, true), RangeGoal(fs, gc), Base(fs.bm.ratio, m), o)
  }

  /** It finds them from block p on. */
  ghost predicate RunFor(fs: FileSystem, s: seq<bool>, gc: nat, m: nat, fixedGoal: bool, p: nat)
    requires fs.bm.Valid() && fs.first < fs.blocks == |s|
  {
    fs.first <= p && RangeFor(fs, s, gc, m, fixedGoal, RangeSearch.Found(p, Base(fs.bm.ratio, m)))
  }

  /** What an operation may do to the list of live ranges, when s are the clear blocks. */
  ghost predicate Step(fs: FileSystem, s: seq<bool>, op: Op, live: seq<Live>, live': seq<Live>)
    requires fs.bm.Valid() && fs.first < fs.blocks == |s|
  {
    match op
    case TakeBlock(goal) =>
      if live' == live then 0 < goal < fs.first || RangeSearch.NoneIn(s, fs.first, |s|)
      else !(0 < goal < fs.first) && exists b :: BlockFor(fs, s, goal, b) && live' == live + [OneAt(fs, b)]
    case TakeRange(gc, m, fixedGoal) =>
      if live' == live then
        || m == 0 || RangeFor(fs, s, gc, m, fixedGoal, RangeSearch.Fail)
        || RangeSearch.Hangs(s, fs.first, RangeSearch.Flags(fixedGoal, true), Base(fs.bm.ratio, m))
      else
        m > 0 && exists p :: RunFor(fs, s, gc, m, fixedGoal, p) && live' == live + [RunFrom(fs, p, m)]
    case Give(i) => live' == if i < |live| then Without(live, i) else live
  }

  /** The m clusters from that of block p on. */
  function RunFrom(fs: FileSystem, p: nat, m: nat): (l: Live)
    requires fs.bm.Valid() && fs.first <= p
  {
    Live(Cluster(fs.bm.ratio, p - fs.first), Cluster(fs.bm.ratio, p - fs.first) + m)
  }

  function OneAt(fs: FileSystem, b: nat): (l: Live)
    requires fs.bm.Valid() && fs.first <= b
  {
    RunFrom(fs, b, 1)
  }

  ghost predicate Apart(live: seq<Live>, i: nat, j: nat)
    requires i < |live| && j < |live|
  {
    live[i].e <= live[j].c || live[j].e <= live[i].c
  }

  /** Every cluster that was not set at first is set exactly when one of the live ranges has it, and no two share any. */
  ghost predicate Owned(first: seq<bool>, bits: seq<bool>, live: seq<Live>) {
    && |first| == |bits|
    && (forall i :: 0 <= i < |live| ==> live[i].c < live[i].e <= |bits|)
    && (forall i, j :: 0 <= i < j < |live| ==> Apart(live, i, j))
    && (forall k :: 0 <= k < |bits| ==> (bits[k] <==> first[k] || Taken(live, k)))
    && (forall i, k :: 0 <= i < |live| && live[i].c <= k < live[i].e ==> !first[k])
  }

  ghost predicate Taken(live: seq<Live>, k: nat) {
    exists i :: 0 <= i < |live| && live[i].c <= k < live[i].e
  }

  /** A new range was clear, so it has nothing to do with the others. */
  lemma OwnedTake(first: seq<bool>, bits: seq<bool>, bits': seq<bool>, live: seq<Live>, c: nat, e: nat)
    requires Owned(first, bits, live) && Flipped(bits, bits', c, e, true) && c < e
    ensures Owned(first, bits', live + [Live(c, e)])
  {
    var live' := live + [Live(c, e)];
    forall i | 0 <= i < |live| ensures Apart(live', i, |live|) {
      var k := Max(c, live[i].c);
      assert live[i].c <= k < live[i].e ==> Taken(live, k);
      assert c <= k < e ==> !bits[k];
    }
    forall i, j | 0 <= i < j < |live'| ensures Apart(live', i, j) {
      assert j < |live| ==> Apart(live, i, j);
    }
    forall k | 0 <= k < |bits| ensures Taken(live', k) <==> Taken(live, k) || c <= k < e {
      if Taken(live, k) {
        var i :| 0 <= i < |live| && live[i].c <= k < live[i].e;
        assert live'[i] == live[i];
      }
      if c <= k < e {
        assert live'[|live|] == Live(c, e);
      }
    }
  }

  function Without(live: seq<Live>, i: nat): (l: seq<Live>)
    requires i < |live|
  {
    live[..i] + live[i + 1..]
  }

  lemma OwnedGive(first: seq<bool>, bits: seq<bool>, bits': seq<bool>, live: seq<Live>, i: nat)
    requires Owned(first, bits, live) && i < |live| && Flipped(bits, bits', live[i].c, live[i].e, false)
    ensures Owned(first, bits', Without(live, i))
  {
    var live' := Without(live, i);
    forall a, b | 0 <= a < b < |live'| ensures Apart(live', a, b) {
      assert Apart(live, if a < i then a else a + 1, if b < i then b else b + 1);
    }
    forall k | 0 <= k < |bits| ensures Taken(live', k) <==> Taken(live, k) && !(live[i].c <= k < live[i].e) {
      TakenWithout(live, i, k);
    }
  }

  lemma TakenWithout(live: seq<Live>, i: nat, k: nat)
    requires i < |live| && forall a, b :: 0 <= a < b < |live| ==> Apart(live, a, b)
    ensures Taken(Without(live, i), k) <==> Taken(live, k) && !(live[i].c <= k < live[i].e)
  {
    var live' := Without(live, i);
    if Taken(live', k) {
      var a :| 0 <= a < |live'| && live'[a].c <= k < live'[a].e;
      var b := if a < i then a else a + 1;
      assert live[b] == live'[a];
      assert if b < i then Apart(live, b, i) else Apart(live, i, b);
    }
    if Taken(live, k) && !(live[i].c <= k < live[i].e) {
      var b :| 0 <= b < |live| && live[b].c <= k < live[b].e;
      assert live'[if b < i then b else b - 1] == live[b];
    }
  }

  /** A live range is one cluster, or ends within the file system. */
  ghost predicate Whole(fs: FileSystem, live: seq<Live>)
    requires fs.bm.Valid()
  {
    forall i :: 0 <= i < |live| ==> live[i].e == live[i].c + 1 || fs.first + Base(fs.bm.ratio, live[i].e) <= fs.blocks
  }

  /** A block is taken, if there is one. */
  method Take(fs: FileSystem, goal: nat, live: seq<Live>, base: nat, ghost first: seq<bool>) returns (live': seq<Live>)
    requires fs.Valid() && Owned(first, fs.Bits(), live) && Whole(fs, live)
    modifies fs, fs.bm.ba.bits
    ensures fs.Valid() && Owned(first, fs.Bits(), live') && Whole(fs, live')
    ensures Step(fs, old(ClearMap(fs)), TakeBlock(goal), live, live')
  {
    ghost var before, s := fs.Bits(), ClearMap(fs);
    var err, b;
    ghost var k;
    err, b, k := AllocBlock(fs, goal, base);
    if err != Ok {
      return live;
    }
    var n := fs.Index(b);
    OwnedTake(first, before, fs.Bits(), live, n, n + 1);
    live' := live + [Live(n, n + 1)];
    StepOne(fs, s, goal, live, b, n);
  }

  lemma StepOne(fs: FileSystem, s: seq<bool>, goal: nat, live: seq<Live>, b: nat, n: nat)
    requires fs.bm.Valid() && fs.first < fs.blocks == |s| && !(0 < goal < fs.first) && BlockFor(fs, s, goal, b)
    requires OneAt(fs, b) == Live(n, n + 1)
    ensures Step(fs, s, TakeBlock(goal), live, live + [Live(n, n + 1)])
  {
    assert live + [Live(n, n + 1)] != live;
  }

  /** Does a search for a range with a minimum length and no fixed goal end? */
  method SearchEnds(fs: FileSystem, len: nat, base: nat) returns (ends: bool)
    requires fs.Shaped()
    ensures ends <==> !RangeSearch.Hangs(ClearMap(fs), fs.first, RangeSearch.Flags(false, true), len)
  {
    ghost var s := ClearMap(fs);
    var last := Find(fs, true, fs.blocks - 1, fs.blocks, base);
    if len == 0 || last < fs.blocks {
      assert len == 0 ==> RangeSearch.RunAt(s, fs.first, len);
      return true;
    }
    var start := fs.first;
    while start < fs.blocks
      invariant ClearMap(fs) == s && fs.first <= start <= fs.blocks && RangeSearch.NoRun(s, len, fs.first, start)
      invariant start > fs.first ==> !RangeSearch.NoneIn(s, fs.first, |s|)
      decreases fs.blocks - start
    {
      var z, e := NextRun(fs, start, len, base);
      if z == fs.blocks {
        RangeSearch.NoneNoRun(s, len, start, |s|);
        return start == fs.first;
      }
      if e - z >= len {
        assert RangeSearch.RunAt(s, z, len);
        return true;
      }
      RangeSearch.RunTooShort(s, len, fs.first, start, z, e);
      start := e;
    }
    return false;
  }

  /** The next clear block, and the end of the run that begins there, as far as it matters. */
  method NextRun(fs: FileSystem, start: nat, len: nat, base: nat) returns (z: nat, e: nat)
    requires fs.Shaped() && fs.first <= start < fs.blocks && len > 0
    ensures z == RangeSearch.FirstLike(ClearMap(fs), true, start, fs.blocks)
    ensures z < fs.blocks ==> e == RangeSearch.FirstLike(ClearMap(fs), false, z, RangeSearch.Min(z + len, fs.blocks))
  {
    z := Find(fs, true, start, fs.blocks, base);
    e := z;
    if z < fs.blocks {
      e := Find(fs, false, z, RangeSearch.Min(z + len, fs.blocks), base);
    }
  }

  /** The first block of a cluster is a goal at the beginning of one. */
  method GoalAt(fs: FileSystem, gc: nat) returns (goal: nat)
    requires fs.Shaped()
    ensures goal == fs.first + Base(fs.bm.ratio, gc) && Floor(fs, Goal(fs, goal)) == Goal(fs, goal)
    ensures RangeGoal(fs, gc) == if goal == 0 || goal >= fs.blocks then fs.first else goal
  {
    goal := fs.first + Base(fs.bm.ratio, gc);
    FirstAligned(fs);
    ClusterAt(fs, goal, gc);
    BaseAdd(fs.bm.ratio, fs.bm.start, gc);
  }

  lemma RangeAt(fs: FileSystem, pblk: nat, c: nat, m: nat)
    requires fs.Shaped() && fs.WholeClusters(pblk, Base(fs.bm.ratio, m), c, c + m)
    ensures fs.Index(pblk) == c && fs.first + Base(fs.bm.ratio, c + m) <= fs.blocks
  {
    ClusterAt(fs, pblk, c);
    BaseAdd(fs.bm.ratio, c, m);
  }

  /** Clusters k..k+m are allocated, from cluster gc on or wherever there are so many. */
  method AllocClusters(fs: FileSystem, gc: nat, m: nat, fixedGoal: bool, base: nat) returns (err: Error, k: nat, ghost p: nat)
    requires fs.Valid()
    requires !RangeSearch.Hangs(ClearMap(fs), fs.first, RangeSearch.Flags(fixedGoal, true), Base(fs.bm.ratio, m))
    modifies fs, fs.bm.ba.bits
    ensures fs.Valid()
    ensures err != Ok ==> fs.Bits() == old(fs.Bits())
    ensures err == Ok ==> m > 0 && Flipped(old(fs.Bits()), fs.Bits(), k, k + m, true)
    ensures err == Ok ==> fs.first + Base(fs.bm.ratio, k + m) <= fs.blocks
    ensures err != Ok ==> m == 0 || RangeFor(fs, old(ClearMap(fs)), gc, m, fixedGoal, RangeSearch.Fail)
    ensures err == Ok ==> RunFor(fs, old(ClearMap(fs)), gc, m, fixedGoal, p) && Live(k, k + m) == RunFrom(fs, p, m)
  {
    var goal := GoalAt(fs, gc);
    var pblk;
    ghost var c;
    err, pblk, c := AllocRange(fs, fixedGoal, goal, Base(fs.bm.ratio, m), base, m);
    k, p := 0, pblk;
    if err == Ok {
      RangeAt(fs, pblk, c, m);
      k := fs.Index(pblk);
    }
  }

  /** A range is taken. A search that would not end is not begun. */
  method TakeAt(fs: FileSystem, gc: nat, m: nat, fixedGoal: bool, live: seq<Live>, base: nat, ghost first: seq<bool>)
    returns (live': seq<Live>)
    requires fs.Valid() && Owned(first, fs.Bits(), live) && Whole(fs, live)
    requires !RangeSearch.Hangs(ClearMap(fs), fs.first, RangeSearch.Flags(fixedGoal, true), Base(fs.bm.ratio, m))
    modifies fs, fs.bm.ba.bits
    ensures fs.Valid() && Owned(first, fs.Bits(), live') && Whole(fs, live')
    ensures Step(fs, old(ClearMap(fs)), TakeRange(gc, m, fixedGoal), live, live')
  {
    ghost var before, s := fs.Bits(), ClearMap(fs);
    var err, k;
    ghost var p;
    err, k, p := AllocClusters(fs, gc, m, fixedGoal, base);
    if err != Ok {
      StepRefused(fs, s, gc, m, fixedGoal, live);
      return live;
    }
    RunTaken(fs, first, before, fs.Bits(), s, gc, m, fixedGoal, live, k, p);
    return live + [Live(k, k + m)];
  }

  lemma StepRefused(fs: FileSystem, s: seq<bool>, gc: nat, m: nat, fixedGoal: bool, live: seq<Live>)
    requires fs.bm.Valid() && fs.first < fs.blocks == |s|
    requires m == 0 || RangeFor(fs, s, gc, m, fixedGoal, RangeSearch.Fail)
    ensures Step(fs, s, TakeRange(gc, m, fixedGoal), live, live)
  {
  }

  lemma RunTaken(fs: FileSystem, first: seq<bool>, bits: seq<bool>, bits': seq<bool>, s: seq<bool>, gc: nat, m: nat,
                 fixedGoal: bool, live: seq<Live>, k: nat, p: nat)
    requires fs.bm.Valid() && fs.first < fs.blocks == |s| && m > 0 && Owned(first, bits, live) && Whole(fs, live)
    requires Flipped(bits, bits', k, k + m, true) && fs.first + Base(fs.bm.ratio, k + m) <= fs.blocks
    requires RunFor(fs, s, gc, m, fixedGoal, p) && Live(k, k + m) == RunFrom(fs, p, m)
    ensures var live' := live + [Live(k, k + m)];
            Owned(first, bits', live') && Whole(fs, live') && Step(fs, s, TakeRange(gc, m, fixedGoal), live, live')
  {
    OwnedTake(first, bits, bits', live, k, k + m);
    WholeTake(fs, live, k, m);
    assert live + [Live(k, k + m)] != live;
  }

  lemma WholeTake(fs: FileSystem, live: seq<Live>, k: nat, m: nat)
    requires fs.bm.Valid() && Whole(fs, live) && fs.first + Base(fs.bm.ratio, k + m) <= fs.blocks
    ensures Whole(fs, live + [Live(k, k + m)])
  {
  }

  /** A live range is given back. */
  method GiveBack(fs: FileSystem, i: nat, live: seq<Live>, ghost first: seq<bool>) returns (live': seq<Live>)
    requires fs.Valid() && Owned(first, fs.Bits(), live) && Whole(fs, live) && i < |live|
    modifies fs, fs.bm.ba.bits
    ensures fs.Valid() && Owned(first, fs.Bits(), live') && Whole(fs, live')
    ensures live' == Without(live, i)
  {
    ghost var before := fs.Bits();
    var c, e := live[i].c, live[i].e;
    var blk := fs.first + Base(fs.bm.ratio, c);
    forall k | c <= k < e ensures before[k] {
      assert Taken(live, k);
    }
    if e == c + 1 {
      BeginsInside(fs, c);
      ClusterAt(fs, blk, c);
      fs.Stats(blk, -1, c);
    } else {
      BaseAdd(fs.bm.ratio, c, e - c);
      fs.StatsRange(blk, Base(fs.bm.ratio, e - c), -1, c, e);
    }
    OwnedGive(first, before, fs.Bits(), live, i);
    return Without(live, i);
  }

  lemma BeginsInside(fs: FileSystem, c: nat)
    requires fs.Shaped() && c < fs.Clusters()
    ensures fs.first + Base(fs.bm.ratio, c) < fs.blocks
  {
    BaseAdd(fs.bm.ratio, fs.bm.start, c);
    Galois(fs.bm.ratio, fs.blocks - 1, fs.bm.start + c);
  }

  /** The bits when these ranges are live, and the blocks that are clear then. */
  ghost function BitsWith(first: seq<bool>, live: seq<Live>): (bits: seq<bool>) {
    seq(|first|, k => 0 <= k < |first| && (first[k] || Taken(live, k)))
  }

  ghost function ClearWith(fs: FileSystem, bits: seq<bool>): (s: seq<bool>)
    requires fs.bm.Valid()
    ensures |s| == fs.blocks
  {
    seq(fs.blocks, b requires 0 <= b => fs.first <= b && var k := Cluster(fs.bm.ratio, b - fs.first); k < |bits| && !bits[k])
  }

  /** The live ranges say which blocks are clear. */
  lemma ClearIs(fs: FileSystem, first: seq<bool>, live: seq<Live>)
    requires fs.Shaped() && Owned(first, fs.Bits(), live)
    ensures ClearMap(fs) == ClearWith(fs, BitsWith(first, live))
  {
    var s := ClearWith(fs, BitsWith(first, live));
    assert fs.Bits() == BitsWith(first, live);
    forall b | 0 <= b < fs.blocks ensures ClearMap(fs)[b] == s[b] {
      if fs.first <= b {
        fs.IndexInside(b);
        assert fs.Index(b) == Cluster(fs.bm.ratio, b - fs.first);
      } else {
        Galois(fs.bm.ratio, b, fs.bm.start);
      }
    }
  }

  /** A run of the allocator: what is live after each operation. */
  ghost predicate Run(fs: FileSystem, first: seq<bool>, ops: seq<Op>, hist: seq<seq<Live>>)
    requires fs.bm.Valid() && fs.first < fs.blocks
  {
    && 0 < |hist| <= |ops| + 1 && hist[0] == []
    && forall n :: 0 <= n < |hist| - 1 ==> Step(fs, ClearWith(fs, BitsWith(first, hist[n])), ops[n], hist[n], hist[n + 1])
  }

  /** One operation. A search that would not end is not begun. */
  method Do(fs: FileSystem, op: Op, live: seq<Live>, base: nat, ghost first: seq<bool>) returns (live': seq<Live>)
    requires fs.Valid() && Owned(first, fs.Bits(), live) && Whole(fs, live)
    modifies fs, fs.bm.ba.bits
    ensures fs.Valid() && Owned(first, fs.Bits(), live') && Whole(fs, live')
    ensures Step(fs, ClearWith(fs, BitsWith(first, live)), op, live, live')
  {
    ClearIs(fs, first, live);
    live' := live;
    match op {
      case TakeBlock(goal) =>
        live' := Take(fs, goal, live, base, first);
      case TakeRange(gc, m, fixedGoal) =>
        var ends := fixedGoal;
        if !ends {
          ends := SearchEnds(fs, Base(fs.bm.ratio, m), base);
        }
        if ends {
          live' := TakeAt(fs, gc, m, fixedGoal, live, base, first);
        }
      case Give(i) =>
        if i < |live| {
          live' := GiveBack(fs, i, live, first);
        }
    }
  }

  /**
   Any run of allocations and frees, with fixed goals or without, leaving out only the range searches that would
   never end: each does what it should, the counters stay right, live ranges never overlap, and what is set is what
   was set at first or is live.
   */
  method Drive(fs: FileSystem, ops: seq<Op>, base: nat) returns (live: seq<Live>, ghost hist: seq<seq<Live>>)
    requires fs.Valid()
    modifies fs, fs.bm.ba.bits
    ensures fs.Valid() && Owned(old(fs.Bits()), fs.Bits(), live)
    ensures |hist| == |ops| + 1 && Run(fs, old(fs.Bits()), ops, hist) && live == hist[|ops|]
  {
    ghost var first := fs.Bits();
    live, hist := [], [[]];
    for n := 0 to |ops|
      invariant fs.Valid() && Owned(first, fs.Bits(), live) && Whole(fs, live)
      invariant |hist| == n + 1 && Run(fs, first, ops, hist) && live == hist[n]
    {
      live := Do(fs, ops[n], live, base, first);
      hist := hist + [live];
    }
  }
}
