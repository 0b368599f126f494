/**
 Model of the block layer of libext2fs/gen_bitmap64.c: a bitmap of clusters asked about blocks. A
 cluster is `ratio` blocks; the source has a power of two, and shifts where Cluster and Base stand.
 */
module GenBitmap {
  import opened Runs
  import BaBitmap

  /** `block >> cluster_bits`. */
  function Cluster(ratio: nat, block: nat): (c: nat)
    requires ratio > 0
    decreases block
  {
    if block < ratio then 0 else Cluster(ratio, block - ratio) + 1
  }

  /** `cluster << cluster_bits`. */
  function Base(ratio: nat, c: nat): (block: nat) {
    if c == 0 then 0 else Base(ratio, c - 1) + ratio
  }

  lemma {:induction false} ClusterDivides(ratio: nat, block: nat)
    requires ratio > 0
    ensures Cluster(ratio, block) == block / ratio
    decreases block
  {
    if block >= ratio {
      ClusterDivides(ratio, block - ratio);
      var q, r := (block - ratio) / ratio, (block - ratio) % ratio;
      QuotientUnique(ratio, q + 1, r, block);
    } else {
      QuotientUnique(ratio, 0, block, block);
    }
  }

  lemma QuotientUnique(ratio: nat, q: nat, r: nat, n: nat)
    requires r < ratio && n == ratio * q + r
    ensures n / ratio == q
  {
    var d := n / ratio - q;
    assert ratio * d == r - n % ratio;
    ProductGrows(ratio, d);
    assert n % ratio < ratio;
  }

  lemma ProductGrows(ratio: int, d: int)
    requires ratio >= 0
    ensures d > 0 ==> ratio * d >= ratio
    ensures d < 0 ==> ratio * d <= -ratio
  {
  }

  lemma {:induction false} BaseMultiplies(ratio: nat, c: nat)
    ensures Base(ratio, c) == ratio * c
  {
    if c > 0 {
      BaseMultiplies(ratio, c - 1);
    }
  }

  /** A cluster is at or before that of a block exactly when it begins at or before the block. */
  lemma {:induction false} Galois(ratio: nat, block: nat, c: nat)
    requires ratio > 0
    ensures c <= Cluster(ratio, block) <==> Base(ratio, c) <= block
    decreases block
  {
    if block >= ratio && c > 0 {
      Galois(ratio, block - ratio, c - 1);
    }
  }

  lemma ClusterOf(ratio: nat, block: nat, c: nat)
    requires ratio > 0 && Base(ratio, c) <= block < Base(ratio, c) + ratio
    ensures Cluster(ratio, block) == c
  {
    Galois(ratio, block, c);
    Galois(ratio, block, c + 1);
  }

  lemma ClusterBounds(ratio: nat, block: nat)
    requires ratio > 0
    ensures var c := Cluster(ratio, block); Base(ratio, c) <= block < Base(ratio, c) + ratio
  {
    var c := Cluster(ratio, block);
    Galois(ratio, block, c);
    Galois(ratio, block, c + 1);
  }

  lemma ClusterMonotone(ratio: nat, a: nat, b: nat)
    requires ratio > 0 && a <= b
    ensures Cluster(ratio, a) <= Cluster(ratio, b)
  {
    ClusterBounds(ratio, a);
    Galois(ratio, b, Cluster(ratio, a));
  }

  // ----- Ranges -----

  /** The cluster after the last one, when a range that ends before block `end` is rounded outwards. */
  function RoundUp(ratio: nat, end: nat): (c: nat)
    requires ratio > 0
  {
    Cluster(ratio, end + (ratio - 1))
  }

  lemma RoundedUp(ratio: nat, end: nat, c: nat)
    requires ratio > 0
    ensures c < RoundUp(ratio, end) <==> Base(ratio, c) < end
  {
    Galois(ratio, end + (ratio - 1), c + 1);
  }

  /** The cluster c holds a block of block..block + num. */
  ghost predicate Touches(ratio: nat, block: nat, num: nat, c: nat)
    requires ratio > 0
  {
    exists b: nat :: block <= b < block + num && Cluster(ratio, b) == c
  }

  /** An empty range that begins inside a cluster is rounded to that cluster. */
  ghost predicate Straddles(ratio: nat, block: nat, num: nat, c: nat)
    requires ratio > 0
  {
    num == 0 && Base(ratio, c) < block < Base(ratio, c) + ratio
  }

  /** The clusters a range is rounded to. */
  ghost predicate Rounded(ratio: nat, block: nat, num: nat, c: nat)
    requires ratio > 0
  {
    Touches(ratio, block, num, c) || Straddles(ratio, block, num, c)
  }

  lemma InRounded(ratio: nat, block: nat, num: nat, c: nat)
    requires ratio > 0 && Cluster(ratio, block) <= c < RoundUp(ratio, block + num)
    ensures Rounded(ratio, block, num, c)
  {
    RoundedUp(ratio, block + num, c);
    Galois(ratio, block, c + 1);
    if num > 0 {
      var b := if block < Base(ratio, c) then Base(ratio, c) else block;
      ClusterOf(ratio, b, c);
    }
  }

  lemma RoundedIn(ratio: nat, block: nat, num: nat, c: nat)
    requires ratio > 0 && Rounded(ratio, block, num, c)
    ensures Cluster(ratio, block) <= c < RoundUp(ratio, block + num)
  {
    RoundedUp(ratio, block + num, c);
    Galois(ratio, block, c + 1);
    if Touches(ratio, block, num, c) {
      var b: nat :| block <= b < block + num && Cluster(ratio, b) == c;
      ClusterBounds(ratio, b);
    }
  }

  /** A range that is not empty is rounded to clusters of its own blocks. */
  lemma RoundedLast(ratio: nat, block: nat, num: nat)
    requires ratio > 0 && num > 0
    ensures RoundUp(ratio, block + num) == Cluster(ratio, block + num - 1) + 1
  {
    var c := Cluster(ratio, block + num - 1);
    ClusterBounds(ratio, block + num - 1);
    RoundedUp(ratio, block + num, c);
    RoundedUp(ratio, block + num, c + 1);
  }

  datatype Tested = Refused | Tested(clear: bool)

  /** `ext2fs_generic_bitmap_64` with the bit array below it; start and end count clusters. */
  class Bitmap {
    const ba: BaBitmap.BitArray
    const start: nat
    const end: nat
    const ratio: nat

    ghost predicate Valid() {
      ba.Valid() && start <= end && ratio > 0 && end - start < ba.bits.Length
    }

    /** A bitmap of the clusters start..end, all clear. */
    constructor (start: nat, end: nat, ratio: nat)
      requires start <= end && ratio > 0
      ensures Valid() && this.start == start && this.end == end && this.ratio == ratio && fresh(ba.bits)
      ensures AllAre(ba.bits[..], false)
    {
      this.start, this.end, this.ratio := start, end, ratio;
      this.ba := new BaBitmap.BitArray((end - start) / 8 + 1);
    }

    predicate Inside(block: nat)
      requires Valid()
    {
      start <= Cluster(ratio, block) <= end
    }

    ghost predicate AllInside(block: nat, num: nat)
      requires Valid()
    {
      forall b: nat :: block <= b < block + num ==> Inside(b)
    }

    /** The bit of the cluster of a block is v. */
    ghost predicate Like(v: bool, block: nat)
      requires Valid()
      reads ba.bits
    {
      Inside(block) && ba.bits[Cluster(ratio, block) - start] == v
    }

    /** The clusters a range of blocks is rounded to, and whether they are all in the bitmap. */
    method Round(block: nat, num: nat) returns (ok: bool, first: nat, count: nat)
      requires Valid()
      ensures first == Cluster(ratio, block) && first + count == RoundUp(ratio, block + num)
      ensures ok <==> start <= first <= end && first + count <= end + 1
      ensures num > 0 ==> (ok <==> AllInside(block, num))
    {
      ClusterMonotone(ratio, block, block + num + (ratio - 1));
      first, count := Cluster(ratio, block), RoundUp(ratio, block + num) - Cluster(ratio, block);
      ok := start <= first <= end && first + count <= end + 1;
      if num > 0 {
        RoundedLast(ratio, block, num);
        assert AllInside(block, num) ==> Inside(block) && Inside(block + num - 1);
        forall b: nat | block <= b < block + num ensures first <= Cluster(ratio, b) < first + count {
          ClusterMonotone(ratio, block, b);
          ClusterMonotone(ratio, b, block + num - 1);
        }
      }
    }

    /** The range is rounded to the cluster of bit k, among others. */
    ghost predicate Hit(block: nat, num: nat, k: nat)
      requires Valid()
    {
      Rounded(ratio, block, num, start + k)
    }

    lemma HitRange(block: nat, num: nat, k: nat)
      requires Valid()
      ensures Hit(block, num, k) <==> Cluster(ratio, block) <= start + k < RoundUp(ratio, block + num)
    {
      if Hit(block, num, k) {
        RoundedIn(ratio, block, num, start + k);
      } else if Cluster(ratio, block) <= start + k < RoundUp(ratio, block + num) {
        InRounded(ratio, block, num, start + k);
      }
    }

    /**
     `ext2fs_mark_block_bitmap_range2` and `ext2fs_unmark_block_bitmap_range2`: the clusters that hold a
     block of the range, or none if one of them is not in the bitmap.
     */
    method SetRange(block: nat, num: nat, v: bool) returns (ok: bool)
      requires Valid()
      modifies ba.bits
      ensures !ok ==> ba.bits[..] == old(ba.bits[..])
      ensures num > 0 ==> (ok <==> AllInside(block, num))
      ensures ok ==> forall k :: 0 <= k <= end - start ==> ba.bits[k] == if Hit(block, num, k) then v else old(ba.bits[k])
    {
      var first, count;
      ok, first, count := Round(block, num);
      if ok {
        ba.SetExtent(first - start, count, v);
        forall k | 0 <= k <= end - start ensures Hit(block, num, k) <==> first - start <= k < first - start + count {
          HitRange(block, num, k);
        }
      }
    }

    /** `ext2fs_mark_generic_bmap` and `ext2fs_unmark_generic_bmap`. */
    method SetBlock(block: nat, v: bool) returns (was: bool)
      requires Valid()
      modifies ba.bits
      ensures !Inside(block) ==> !was && ba.bits[..] == old(ba.bits[..])
      ensures Inside(block) ==> was == old(ba.bits[Cluster(ratio, block) - start])
      ensures Inside(block) ==> ba.bits[..] == old(ba.bits[..])[Cluster(ratio, block) - start := v]
    {
      if !Inside(block) {
        return false;
      }
      if v {
        was := ba.Mark(Cluster(ratio, block) - start);
      } else {
        was := ba.Unmark(Cluster(ratio, block) - start);
      }
    }

    /** `ext2fs_test_block_bitmap_range2` of more than one block. */
    method TestRange(block: nat, num: nat) returns (r: Tested)
      requires Valid() && num > 1
      ensures r == Refused <==> !AllInside(block, num)
      ensures r.Tested? ==> (r.clear <==> forall b: nat :: block <= b < block + num ==> Like(false, b))
    {
      var ok, first, count := Round(block, num);
      if !ok {
        return Refused;
      }
      var clear := ba.TestClearExtent(first - start, count);
      TestedBlocks(block, num, first, count);
      return Tested(clear);
    }

    lemma TestedBlocks(block: nat, num: nat, first: nat, count: nat)
      requires Valid() && num > 0 && start <= first && first + count <= end + 1
      requires first == Cluster(ratio, block) && first + count == RoundUp(ratio, block + num)
      ensures (forall b: nat :: block <= b < block + num ==> Like(false, b))
              <==> BaBitmap.NoneIn(ba.bits[..], true, first - start, first - start + count)
    {
      if BaBitmap.NoneIn(ba.bits[..], true, first - start, first - start + count) {
        forall b: nat | block <= b < block + num ensures Like(false, b) {
          RoundedIn(ratio, block, num, Cluster(ratio, b));
        }
      }
      if forall b: nat :: block <= b < block + num ==> Like(false, b) {
        forall k | first - start <= k < first - start + count ensures !ba.bits[k] {
          InRounded(ratio, block, num, k + start);
          var b: nat :| block <= b < block + num && Cluster(ratio, b) == k + start;
          assert Like(false, b);
        }
      }
    }

    /**
     `ext2fs_find_first_zero_generic_bmap` and `ext2fs_find_first_set_generic_bmap`: the least block of
     from..to, both included, whose cluster is as wanted.
     */
    method FindFirst(want: bool, from: nat, to: nat, base: nat) returns (out: Found)
      requires Valid()
      ensures out == Invalid <==> from > to || !Inside(from) || !Inside(to)
      ensures out.At? ==> from <= out.bit <= to && Like(want, out.bit)
      ensures out.At? ==> out.bit == from || out.bit == Base(ratio, Cluster(ratio, out.bit))
      ensures out != Invalid ==>
                forall b: nat :: from <= b < (if out.At? then out.bit else to + 1) ==> !Like(want, b)
    {
      var cstart, cend := Cluster(ratio, from), Cluster(ratio, to);
      if from <= to {
        ClusterMonotone(ratio, from, to);
      }
      if cstart < start || cend > end || from > to {
        return Invalid;
      }
      var cout := ba.FindFirst(want, cstart - start, cend - start, base);
      if cout == Nowhere {
        NoneLike(want, from, to + 1, cend + 1);
        return Nowhere;
      }
      var c := cout.bit + start;
      var block := Base(ratio, c);
      out := At(if block >= from then block else from);
      Galois(ratio, to, c);
      Galois(ratio, from, c + 1);
      ClusterOf(ratio, out.bit, c);
      NoneLike(want, from, out.bit, c);
    }

    /** No cluster from that of lo up to chi is as wanted, and the blocks lo..hi lie before chi or begin it. */
    lemma NoneLike(want: bool, lo: nat, hi: nat, chi: nat)
      requires Valid() && lo <= hi && Inside(lo) && chi <= end + 1 && Cluster(ratio, lo) <= chi
      requires BaBitmap.NoneIn(ba.bits[..], want, Cluster(ratio, lo) - start, chi - start)
      requires hi <= lo || hi <= Base(ratio, chi) || Cluster(ratio, hi - 1) < chi
      ensures forall b: nat :: lo <= b < hi ==> !Like(want, b)
    {
      forall b: nat | lo <= b < hi ensures !Like(want, b) {
        ClusterMonotone(ratio, lo, b);
        ClusterMonotone(ratio, b, hi - 1);
        Galois(ratio, b, chi);
      }
    }
  }
}
