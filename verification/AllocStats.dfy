/**
 Model of libext2fs/alloc_stats.c: the block bitmap together with the free counts of the groups and of
 the superblock.
 */
module AllocStats {
  import opened GenBitmap
  import opened FreeCount

  const U32 := 0x1_0000_0000
  const U64 := 0x1_0000_0000_0000_0000

  /** `ext2fs_bg_free_blocks_count(fs, group) - inuse*n/EXT2FS_CLUSTER_RATIO(fs)`, in 64 bits, stored in 32. */
  function GroupCount(free: nat, inuse: int, n: nat, ratio: nat): (c: nat)
    requires ratio > 0 && n < U64 && (inuse == 1 || inuse == -1)
  {
    var product := if inuse == 1 then n else (U64 - n) % U64;
    (free - product / ratio) % U32
  }

  /** The product is a large number when blocks are freed, but what is stored is right. */
  lemma GroupCountRight(free: nat, inuse: int, m: nat, ratio: nat, q: nat)
    requires ratio > 0 && U32 == ratio * q && ratio * m < U64 && (inuse == 1 || inuse == -1)
    requires 0 <= free - inuse * m < U32
    ensures GroupCount(free, inuse, ratio * m, ratio) == free - inuse * m
  {
    if inuse == 1 {
      QuotientUnique(ratio, m, 0, ratio * m);
    } else if m == 0 {
      assert ratio * m == 0;
    } else {
      var w := q * U32;
      assert ratio * w == U64 by {
        assert ratio * w == ratio * q * U32;
      }
      assert ratio * (w - m) == U64 - ratio * m;
      ProductGrows(ratio, m);
      ProductGrows(ratio, w - m);
      QuotientUnique(ratio, w - m, 0, U64 - ratio * m);
      Wrapped(free + m, q);
    }
  }

  lemma Wrapped(x: nat, q: nat)
    requires x < U32
    ensures (x - q * U32) % U32 == x
  {
  }

  // ----- Groups -----

  function Signed(v: bool, n: nat): (i: int) {
    if v then n else 0 - n
  }

  /** What the counter of group g should be, when the clusters c..e have been set or cleared and it does not know. */
  ghost predicate GroupRight(bits: seq<bool>, count: nat, cpg: nat, g: nat, c: nat, e: nat, v: bool) {
    count == ClearIn(bits, Base(cpg, g), Base(cpg, g + 1)) + Signed(v, Overlap(c, e, Base(cpg, g), Base(cpg, g + 1)))
  }

  ghost predicate CountedUpTo(bits: seq<bool>, groups: seq<nat>, cpg: nat, c: nat, e: nat, v: bool) {
    forall g :: 0 <= g < |groups| ==> GroupRight(bits, groups[g], cpg, g, c, e, v)
  }

  /** The clusters c..e have just been flipped, and no counter knows of it. */
  lemma CountedFlipped(bits: seq<bool>, bits': seq<bool>, groups: seq<nat>, cpg: nat, c: nat, e: nat, v: bool)
    requires Flipped(bits, bits', c, e, v) && CountedUpTo(bits, groups, cpg, 0, 0, true)
    ensures CountedUpTo(bits', groups, cpg, c, e, v)
  {
    forall g | 0 <= g < |groups| ensures GroupRight(bits', groups[g], cpg, g, c, e, v) {
      assert GroupRight(bits, groups[g], cpg, g, 0, 0, true);
      ClearFlipped(bits, bits', c, e, v, Base(cpg, g), Base(cpg, g + 1));
    }
  }

  /** All counters know: none of the range is left. */
  lemma CountedDone(bits: seq<bool>, groups: seq<nat>, cpg: nat, c: nat, v: bool)
    requires CountedUpTo(bits, groups, cpg, c, c, v)
    ensures CountedUpTo(bits, groups, cpg, 0, 0, true)
  {
    forall g | 0 <= g < |groups| ensures GroupRight(bits, groups[g], cpg, g, 0, 0, true) {
      assert GroupRight(bits, groups[g], cpg, g, c, c, v);
    }
  }

  /** The range from c on leaves group g after m clusters, or ends there. */
  ghost predicate InGroup(cpg: nat, c: nat, e: nat, g: nat, m: nat) {
    && Base(cpg, g) <= c && c + m <= e && c + m <= Base(cpg, g + 1)
    && (c + m == e || c + m == Base(cpg, g + 1))
  }

  /** Group g takes note of its m clusters. */
  lemma CountedNext(bits: seq<bool>, groups: seq<nat>, cpg: nat, c: nat, e: nat, v: bool, g: nat, m: nat, count: nat)
    requires CountedUpTo(bits, groups, cpg, c, e, v) && InGroup(cpg, c, e, g, m)
    requires g < |groups| && count == groups[g] - Signed(v, m)
    ensures CountedUpTo(bits, groups[g := count], cpg, c + m, e, v)
  {
    var groups', c' := groups[g := count], c + m;
    forall h | 0 <= h < |groups| ensures GroupRight(bits, groups'[h], cpg, h, c', e, v) {
      OverlapNext(cpg, c, e, g, m, h);
      assert GroupRight(bits, groups[h], cpg, h, c, e, v);
    }
  }

  lemma OverlapNext(cpg: nat, c: nat, e: nat, g: nat, m: nat, h: nat)
    requires InGroup(cpg, c, e, g, m)
    ensures Overlap(c, e, Base(cpg, h), Base(cpg, h + 1))
         == Overlap(c + m, e, Base(cpg, h), Base(cpg, h + 1)) + if h == g then m else 0
  {
    if h < g {
      BaseMonotone(cpg, h + 1, g);
    } else if h > g {
      BaseMonotone(cpg, g + 1, h);
    }
  }

  /** The superblock takes note of m clusters with the group. */
  lemma FreeNext(groups: seq<nat>, ratio: nat, g: nat, v: bool, m: nat, count: nat)
    requires g < |groups| && count == groups[g] - Signed(v, m)
    ensures Base(ratio, Sum(groups[g := count])) == Base(ratio, Sum(groups)) - Signed(v, Base(ratio, m))
  {
    SumUpdate(groups, g, count);
    if v {
      BaseAdd(ratio, Sum(groups[g := count]), m);
    } else {
      BaseAdd(ratio, Sum(groups), m);
    }
  }

  // ----- The file system -----

  /** A block from the first one on, counted from there, lies in the cluster counted from there. */
  lemma ClusterFrom(ratio: nat, start: nat, x: nat)
    requires ratio > 0
    ensures Cluster(ratio, Base(ratio, start) + x) == start + Cluster(ratio, x)
  {
    ClusterBounds(ratio, x);
    BaseAdd(ratio, start, Cluster(ratio, x));
    ClusterOf(ratio, Base(ratio, start) + x, start + Cluster(ratio, x));
  }

  lemma ClusterBase(ratio: nat, c: nat)
    requires ratio > 0
    ensures Cluster(ratio, Base(ratio, c)) == c
  {
    ClusterOf(ratio, Base(ratio, c), c);
  }

  /** The group of a block is the group of its cluster. */
  lemma GroupOf(ratio: nat, cpg: nat, x: nat)
    requires ratio > 0 && cpg > 0
    ensures Base(ratio, cpg) > 0 && Cluster(Base(ratio, cpg), x) == Cluster(cpg, Cluster(ratio, x))
  {
    BaseStrict(ratio, 0, cpg);
    var g := Cluster(cpg, Cluster(ratio, x));
    ClusterBounds(cpg, Cluster(ratio, x));
    BaseBase(ratio, cpg, g);
    Galois(ratio, x, Base(cpg, g));
    Galois(ratio, x, Base(cpg, g) + cpg);
    BaseAdd(ratio, Base(cpg, g), cpg);
    ClusterOf(Base(ratio, cpg), x, g);
  }

  /** `struct struct_ext2_filsys`, as far as the allocation of blocks goes. */
  class FileSystem {
    const bm: Bitmap
    const first: nat
    const blocks: nat
    const cpg: nat
    ghost const wraps: nat
    var groupFree: seq<nat>
    var free: int

    /** A file system as it is read. The ratio is a power of two: it goes `wraps` times into 2^32. */
    constructor (bm: Bitmap, blocks: nat, cpg: nat, groupFree: seq<nat>, free: int, ghost wraps: nat)
      requires bm.Valid() && Base(bm.ratio, wraps) == U32 && 0 < cpg < U32
      requires Base(bm.ratio, bm.start) < blocks < U64 && bm.end == Cluster(bm.ratio, blocks - 1)
      requires |groupFree| == Cluster(cpg, bm.end - bm.start) + 1
      ensures Shaped() && this.bm == bm && this.blocks == blocks && this.cpg == cpg
      ensures this.groupFree == groupFree && this.free == free
    {
      this.bm, this.first, this.blocks, this.cpg, this.wraps := bm, Base(bm.ratio, bm.start), blocks, cpg, wraps;
      this.groupFree, this.free := groupFree, free;
    }

    /** The number of clusters. */
    function Clusters(): (n: nat)
      requires bm.start <= bm.end
    {
      bm.end - bm.start + 1
    }

    /** The layout: groups and clusters begin together, and the counters have room. */
    ghost predicate Shaped()
      reads `groupFree
    {
      && bm.Valid() && Base(bm.ratio, wraps) == U32 && 0 < cpg < U32
      && first == Base(bm.ratio, bm.start) && first < blocks < U64 && bm.end == Cluster(bm.ratio, blocks - 1)
      && |groupFree| == Cluster(cpg, bm.end - bm.start) + 1
    }

    ghost function Bits(): (bits: seq<bool>)
      requires bm.Valid()
      reads bm.ba.bits
    {
      bm.ba.bits[..Clusters()]
    }

    /** The free count of each group is the number of its clear clusters, and that of the superblock their blocks. */
    ghost predicate Counted()
      requires bm.Valid()
      reads this, bm.ba.bits
    {
      CountedUpTo(Bits(), groupFree, cpg, 0, 0, true) && free == Base(bm.ratio, Sum(groupFree))
    }

    ghost predicate Valid()
      reads this, bm.ba.bits
    {
      Shaped() && Counted()
    }

    /** `EXT2_BLOCKS_PER_GROUP`. */
    function PerGroup(): (n: nat)
      requires bm.Valid()
    {
      Base(bm.ratio, cpg)
    }

    /** `ext2fs_group_of_blk2`. */
    function GroupOfBlk(blk: nat): (g: nat)
      requires bm.Valid() && cpg > 0 && blk >= first
      ensures g == Cluster(cpg, Cluster(bm.ratio, blk - first))
    {
      GroupOf(bm.ratio, cpg, blk - first);
      Cluster(PerGroup(), blk - first)
    }

    /** `ext2fs_group_last_block2`. */
    function GroupLastBlock(g: nat): (blk: nat)
      requires bm.Valid() && cpg > 0 && blocks > 0
      reads `groupFree
    {
      if g + 1 == |groupFree| then blocks - 1
      else
        BaseStrict(bm.ratio, 0, cpg);
        first + Base(PerGroup(), g) + (PerGroup() - 1)
    }

    /** The range of whole clusters c..e, counted from the first. */
    ghost predicate WholeClusters(blk: nat, num: nat, c: nat, e: nat)
      requires bm.Valid()
    {
      c <= e <= Clusters() && blk == first + Base(bm.ratio, c) && num == Base(bm.ratio, e - c) && blk + num <= blocks
    }

    /** The group of blk, and how many blocks of the range it holds. */
    method TurnLength(blk: nat, num: nat, ghost c: nat, ghost e: nat) returns (group: nat, n: nat, ghost m: nat)
      requires Shaped() && WholeClusters(blk, num, c, e) && num > 0
      ensures 0 < n <= num && n == Base(bm.ratio, m) && group < |groupFree| && InGroup(cpg, c, e, group, m)
    {
      group := GroupOfBlk(blk);
      var lastBlk := GroupLastBlock(group);
      m := TurnClusters(blk, num, c, e, group);
      n := num;
      if blk + num > lastBlk {
        n := lastBlk - blk + 1;
      }
    }

    /** The clusters of the range that lie in the group. */
    lemma TurnClusters(blk: nat, num: nat, c: nat, e: nat, group: nat) returns (m: nat)
      requires Shaped() && WholeClusters(blk, num, c, e) && num > 0 && group == GroupOfBlk(blk)
      ensures group < |groupFree| && InGroup(cpg, c, e, group, m) && 0 < Base(bm.ratio, m) <= num
      ensures blk <= GroupLastBlock(group)
      ensures Base(bm.ratio, m) == if blk + num > GroupLastBlock(group) then GroupLastBlock(group) - blk + 1 else num
    {
      ClusterBase(bm.ratio, c);
      ClusterBounds(cpg, c);
      BaseStrict(bm.ratio, 0, e - c);
      ClusterMonotone(cpg, c, bm.end - bm.start);
      if group + 1 == |groupFree| {
        ClusterBounds(cpg, bm.end - bm.start);
        m := e - c;
      } else {
        m := InnerGroup(blk, num, c, e, group);
      }
    }

    /** The same for a group that is not the last. */
    lemma InnerGroup(blk: nat, num: nat, c: nat, e: nat, group: nat) returns (m: nat)
      requires Shaped() && WholeClusters(blk, num, c, e) && c < e && Base(cpg, group) <= c < Base(cpg, group + 1)
      requires group + 1 < |groupFree|
      ensures InGroup(cpg, c, e, group, m) && 0 < Base(bm.ratio, m) <= num
      ensures blk <= GroupLastBlock(group)
      ensures Base(bm.ratio, m) == if blk + num > GroupLastBlock(group) then GroupLastBlock(group) - blk + 1 else num
    {
      var next := Base(cpg, group + 1);
      BaseBase(bm.ratio, cpg, group + 1);
      assert GroupLastBlock(group) + 1 == first + Base(bm.ratio, next);
      m := Min(e, next) - c;
      BaseStrict(bm.ratio, 0, m);
      BaseAdd(bm.ratio, c, m);
      BaseAdd(bm.ratio, c, e - c);
      BaseStrict(bm.ratio, e, next);
      BaseMonotone(bm.ratio, m, e - c);
    }

    /** The counters of the group and of the superblock take note of n blocks. */
    method NoteGroup(group: nat, n: nat, inuse: int, ghost m: nat, ghost c: nat, ghost e: nat)
      requires Shaped() && group < |groupFree| && n == Base(bm.ratio, m) && (inuse == 1 || inuse == -1)
      requires InGroup(cpg, c, e, group, m) && e <= Clusters() && n < U64
      requires CountedUpTo(Bits(), groupFree, cpg, c, e, inuse == 1) && free == Base(bm.ratio, Sum(groupFree))
      modifies `groupFree, `free
      ensures |groupFree| == |old(groupFree)|
      ensures CountedUpTo(Bits(), groupFree, cpg, c + m, e, inuse == 1) && free == Base(bm.ratio, Sum(groupFree))
    {
      ghost var groups := groupFree;
      CountFits(c, e, group, m, inuse == 1);
      CountRight(groupFree[group], inuse, m);
      groupFree := groupFree[group := GroupCount(groupFree[group], inuse, n, bm.ratio)];
      free := if inuse == 1 then free - n else free + n;
      CountedNext(Bits(), groups, cpg, c, e, inuse == 1, group, m, groupFree[group]);
      FreeNext(groups, bm.ratio, group, inuse == 1, m, groupFree[group]);
    }

    /** One turn of the loop over the groups: n blocks of the group that blk lies in. */
    method StatsTurn(blk: nat, num: nat, inuse: int, ghost c: nat, ghost e: nat) returns (n: nat, ghost m: nat)
      requires Shaped() && WholeClusters(blk, num, c, e) && num > 0 && (inuse == 1 || inuse == -1)
      requires CountedUpTo(Bits(), groupFree, cpg, c, e, inuse == 1) && free == Base(bm.ratio, Sum(groupFree))
      modifies `groupFree, `free
      ensures Shaped() && 0 < n <= num && WholeClusters(blk + n, num - n, c + m, e)
      ensures CountedUpTo(Bits(), groupFree, cpg, c + m, e, inuse == 1) && free == Base(bm.ratio, Sum(groupFree))
    {
      var group;
      group, n, m := TurnLength(blk, num, c, e);
      WholeNext(blk, num, c, e, n, m);
      NoteGroup(group, n, inuse, m, c, e);
    }

    lemma WholeNext(blk: nat, num: nat, c: nat, e: nat, n: nat, m: nat)
      requires bm.Valid() && WholeClusters(blk, num, c, e) && c + m <= e && n == Base(bm.ratio, m)
      ensures n <= num && WholeClusters(blk + n, num - n, c + m, e)
    {
      BaseAdd(bm.ratio, c, m);
      BaseAdd(bm.ratio, m, e - c - m);
      assert m + (e - c - m) == e - c;
    }

    lemma CountRight(count: nat, inuse: int, m: nat)
      requires Shaped() && (inuse == 1 || inuse == -1) && 0 <= count - Signed(inuse == 1, m) < U32 && Base(bm.ratio, m) < U64
      ensures GroupCount(count, inuse, Base(bm.ratio, m), bm.ratio) == count - Signed(inuse == 1, m)
    {
      BaseMultiplies(bm.ratio, m);
      BaseMultiplies(bm.ratio, wraps);
      GroupCountRight(count, inuse, m, bm.ratio, wraps);
    }

    lemma CountFits(c: nat, e: nat, group: nat, m: nat, v: bool)
      requires Shaped() && group < |groupFree| && InGroup(cpg, c, e, group, m) && e <= Clusters()
      requires CountedUpTo(Bits(), groupFree, cpg, c, e, v)
      ensures 0 <= groupFree[group] - Signed(v, m) < U32
    {
    }

    /** The bits of the range are flipped in the bitmap. */
    method MarkRange(blk: nat, num: nat, v: bool, ghost c: nat, ghost e: nat)
      requires Shaped() && WholeClusters(blk, num, c, e)
      requires forall k :: c <= k < e ==> Bits()[k] == !v
      modifies bm.ba.bits
      ensures Flipped(old(Bits()), Bits(), c, e, v)
    {
      RangeInside(blk, num, c, e);
      var ok := bm.SetRange(blk, num, v);
      forall k | 0 <= k <= bm.end - bm.start ensures bm.Hit(blk, num, k) <==> c <= k < e {
        HitWhole(blk, num, c, e, k);
      }
    }

    /** The blocks of the range are in the bitmap. */
    lemma RangeInside(blk: nat, num: nat, c: nat, e: nat)
      requires Shaped() && WholeClusters(blk, num, c, e)
      ensures bm.AllInside(blk, num)
      ensures num == 0 ==> c == e
    {
      BaseStrict(bm.ratio, 0, e - c);
      forall b: nat | blk <= b < blk + num ensures bm.Inside(b) {
        Galois(bm.ratio, b, bm.start);
        ClusterMonotone(bm.ratio, b, blocks - 1);
      }
    }

    /** The range is rounded to its own clusters. */
    lemma HitWhole(blk: nat, num: nat, c: nat, e: nat, k: nat)
      requires Shaped() && WholeClusters(blk, num, c, e)
      ensures bm.Hit(blk, num, k) <==> c <= k < e
    {
      bm.HitRange(blk, num, k);
      ClusterFrom(bm.ratio, bm.start, Base(bm.ratio, c));
      ClusterBase(bm.ratio, c);
      RoundedUp(bm.ratio, blk + num, bm.start + k);
      BaseAdd(bm.ratio, c, e - c);
      BaseAdd(bm.ratio, bm.start, e);
      BaseStrict(bm.ratio, bm.start + k, bm.start + e);
    }

    /** `ext2fs_block_alloc_stats_range` on whole clusters that are all clear, or all set. */
    method StatsRange(blk: nat, num: nat, inuse: int, ghost c: nat, ghost e: nat)
      requires Valid() && WholeClusters(blk, num, c, e)
      requires inuse != 0 ==> forall k :: c <= k < e ==> Bits()[k] == (inuse < 0)
      modifies this, bm.ba.bits
      ensures Valid()
      ensures inuse != 0 ==> Flipped(old(Bits()), Bits(), c, e, inuse > 0)
      ensures inuse == 0 ==> Bits() == old(Bits()) && groupFree == old(groupFree) && free == old(free)
    {
      if inuse == 0 {
        return;
      }
      ghost var before := Bits();
      MarkRange(blk, num, inuse > 0, c, e);
      CountedFlipped(before, Bits(), groupFree, cpg, c, e, inuse > 0);
      CountGroups(blk, num, if inuse > 0 then 1 else -1, c, e);
      CountedDone(Bits(), groupFree, cpg, e, inuse > 0);
    }

    /** The loop over the groups. */
    method CountGroups(blk: nat, num: nat, inuse: int, ghost c: nat, ghost e: nat)
      requires Shaped() && WholeClusters(blk, num, c, e) && (inuse == 1 || inuse == -1)
      requires CountedUpTo(Bits(), groupFree, cpg, c, e, inuse == 1) && free == Base(bm.ratio, Sum(groupFree))
      modifies `groupFree, `free
      ensures Shaped() && CountedUpTo(Bits(), groupFree, cpg, e, e, inuse == 1) && free == Base(bm.ratio, Sum(groupFree))
    {
      var b, n := blk, num;
      ghost var d := c;
      while n > 0
        invariant Shaped() && WholeClusters(b, n, d, e)
        invariant CountedUpTo(Bits(), groupFree, cpg, d, e, inuse == 1) && free == Base(bm.ratio, Sum(groupFree))
      {
        var k;
        ghost var m;
        k, m := StatsTurn(b, n, inuse, d, e);
        b, n, d := b + k, n - k, d + m;
      }
      BaseStrict(bm.ratio, 0, e - d);
    }

    /** The cluster of a block, counted from the first. */
    function Index(blk: nat): (k: nat)
      requires bm.Valid() && blk >= first && first == Base(bm.ratio, bm.start)
      ensures Cluster(bm.ratio, blk) == bm.start + k
    {
      ClusterFrom(bm.ratio, bm.start, blk - first);
      Cluster(bm.ratio, blk - first)
    }

    lemma IndexInside(blk: nat)
      requires Shaped() && first <= blk < blocks
      ensures Index(blk) < Clusters() && bm.Inside(blk) && GroupOfBlk(blk) < |groupFree|
      ensures Base(cpg, GroupOfBlk(blk)) <= Index(blk) < Base(cpg, GroupOfBlk(blk) + 1)
    {
      ClusterMonotone(bm.ratio, blk, blocks - 1);
      ClusterMonotone(cpg, Index(blk), bm.end - bm.start);
      ClusterBounds(cpg, Index(blk));
    }

    /** `ext2fs_mark_block_bitmap2` and `ext2fs_unmark_block_bitmap2`. */
    method MarkOne(blk: nat, v: bool, ghost k: nat) returns (was: bool)
      requires Shaped() && first <= blk < blocks && k == Index(blk) && k < Clusters()
      modifies bm.ba.bits
      ensures was == old(Bits()[k]) && Bits() == old(Bits())[k := v]
    {
      IndexInside(blk);
      was := bm.SetBlock(blk, v);
      UpdatedPrefix(old(bm.ba.bits[..]), k, v, Clusters());
    }

    /** The cluster k of blk is set or cleared, and the counters of its group and of the superblock move. */
    method StatsAt(blk: nat, inuse: int, ghost k: nat)
      requires Valid() && (inuse == 1 || inuse == -1) && first <= blk < blocks && k == Index(blk) && k < Clusters()
      modifies this, bm.ba.bits
      ensures Shaped() && Bits() == old(Bits())[k := inuse == 1]
      ensures Counted() <==> old(Bits()[k]) == (inuse == -1)
    {
      IndexInside(blk);
      ghost var before, groups := Bits(), groupFree;
      var group := GroupOfBlk(blk);
      var was := MarkOne(blk, inuse == 1, k);
      groupFree := groupFree[group := (groupFree[group] - inuse) % U32];
      free := free - inuse * bm.ratio;
      if was == (inuse == -1) {
        CountOne(before, Bits(), groups, groupFree, cpg, bm.ratio, k, group, inuse == 1);
      } else {
        CountLost(before, Bits(), groups, groupFree, cpg, k, group, inuse == 1);
      }
    }

    /**
     `ext2fs_block_alloc_stats2`: the cluster of blk is set or cleared. The counters stay right exactly when
     that is news.
     */
    method Stats(blk: nat, inuse: int, ghost k: nat)
      requires Valid() && (inuse == 1 || inuse == -1)
      requires first <= blk < blocks ==> k == Index(blk) && k < Clusters()
      modifies this, bm.ba.bits
      ensures Shaped()
      ensures blk < first || blk >= blocks ==> Bits() == old(Bits()) && Counted()
      ensures first <= blk < blocks ==> Bits() == old(Bits())[k := inuse == 1]
      ensures first <= blk < blocks ==> (Counted() <==> old(Bits()[k]) == (inuse == -1))
    {
      if blk < first || blk >= blocks {
        return;
      }
      StatsAt(blk, inuse, k);
    }
  }

  lemma UpdatedPrefix(s: seq<bool>, k: nat, v: bool, n: nat)
    requires k < n <= |s|
    ensures s[k := v][..n] == s[..n][k := v]
  {
  }

  /** One cluster is flipped, and both counters take note. */
  lemma CountOne(before: seq<bool>, bits: seq<bool>, groups: seq<nat>, groups': seq<nat>, cpg: nat, ratio: nat,
                 k: nat, g: nat, v: bool)
    requires 0 < cpg < U32 && k < |before| && bits == before[k := v] && before[k] == !v
    requires CountedUpTo(before, groups, cpg, 0, 0, true) && g < |groups| && Base(cpg, g) <= k < Base(cpg, g + 1)
    requires groups' == groups[g := (groups[g] - Signed(v, 1)) % U32]
    ensures CountedUpTo(bits, groups', cpg, 0, 0, true)
    ensures Base(ratio, Sum(groups')) == Base(ratio, Sum(groups)) - Signed(v, ratio)
  {
    CountedFlipped(before, bits, groups, cpg, k, k + 1, v);
    OneFits(bits, groups, cpg, k, g, v);
    OneNoted(bits, groups, groups', cpg, k, g, v);
    FreeNext(groups, ratio, g, v, 1, groups'[g]);
    BaseOne(ratio);
  }

  lemma OneNoted(bits: seq<bool>, groups: seq<nat>, groups': seq<nat>, cpg: nat, k: nat, g: nat, v: bool)
    requires CountedUpTo(bits, groups, cpg, k, k + 1, v) && g < |groups| && Base(cpg, g) <= k < Base(cpg, g + 1)
    requires groups[g] - Signed(v, 1) >= 0 && groups' == groups[g := groups[g] - Signed(v, 1)]
    ensures CountedUpTo(bits, groups', cpg, 0, 0, true)
  {
    CountedNext(bits, groups, cpg, k, k + 1, v, g, 1, groups'[g]);
    CountedDone(bits, groups', cpg, k + 1, v);
  }

  lemma BaseOne(ratio: nat)
    ensures Base(ratio, 1) == ratio
  {
    assert Base(ratio, 1) == Base(ratio, 0) + ratio;
  }

  lemma OneFits(bits: seq<bool>, groups: seq<nat>, cpg: nat, k: nat, g: nat, v: bool)
    requires 0 < cpg < U32 && g < |groups| && Base(cpg, g) <= k < Base(cpg, g + 1)
    requires CountedUpTo(bits, groups, cpg, k, k + 1, v)
    ensures 0 <= groups[g] - Signed(v, 1) < U32
    ensures (groups[g] - Signed(v, 1)) % U32 == groups[g] - Signed(v, 1)
  {
    assert GroupRight(bits, groups[g], cpg, g, k, k + 1, v);
  }

  /** Nothing is flipped, but the counter of the group moves. */
  lemma CountLost(before: seq<bool>, bits: seq<bool>, groups: seq<nat>, groups': seq<nat>, cpg: nat, k: nat, g: nat, v: bool)
    requires 0 < cpg < U32 && g < |groups| && CountedUpTo(before, groups, cpg, 0, 0, true)
    requires k < |before| && bits == before[k := v] && before[k] == v
    requires groups' == groups[g := (groups[g] - Signed(v, 1)) % U32]
    ensures !CountedUpTo(bits, groups', cpg, 0, 0, true)
  {
    assert bits == before;
    assert GroupRight(bits, groups[g], cpg, g, 0, 0, true);
    assert groups[g] <= cpg && groups'[g] != groups[g];
    assert !GroupRight(bits, groups'[g], cpg, g, 0, 0, true);
  }
}
