/**
 Model of libext2fs/blkmap64_ba.c: a set of bits as an array of bytes. The array is held as its
 bits, the least significant bit of a byte first; a byte is a stretch of eight of them and a word one
 of sixty-four.
 */
module BaBitmap {
  import opened Runs

  /** The bits lo..hi are all unlike `want`. */
  ghost predicate NoneIn(bits: seq<bool>, want: bool, lo: nat, hi: nat) {
    hi <= |bits| && forall k :: lo <= k < hi ==> bits[k] != want
  }

  lemma NoneFurther(bits: seq<bool>, want: bool, lo: nat, mid: nat, hi: nat)
    requires NoneIn(bits, want, lo, mid) && mid <= hi <= |bits| && AllAre(bits[mid..hi], !want)
    ensures NoneIn(bits, want, lo, hi)
  {
    forall k | lo <= k < hi ensures bits[k] != want {
      if k >= mid {
        assert bits[mid..hi][k - mid] == !want;
      }
    }
  }

  /** The answer to a search for the first bit of start..end, both included, that is like `want`. */
  ghost predicate FirstLike(bits: seq<bool>, want: bool, start: nat, end: nat, out: Found) {
    match out
    case At(bit) => start <= bit <= end && bit < |bits| && bits[bit] == want && NoneIn(bits, want, start, bit)
    case Nowhere => NoneIn(bits, want, start, end + 1)
    case Invalid => false
  }

  /** `ext2fs_ba_private`. */
  class BitArray {
    const bits: array<bool>

    ghost predicate Valid() {
      bits.Length % 8 == 0
    }

    /** `ba_new_bmap`. */
    constructor (nbytes: nat)
      ensures Valid() && fresh(bits) && bits.Length == 8 * nbytes && AllAre(bits[..], false)
    {
      bits := new bool[8 * nbytes](_ => false);
    }

    /** `ba_mark_bmap`. */
    method Mark(b: nat) returns (was: bool)
      requires b < bits.Length
      modifies bits
      ensures was == old(bits[b]) && bits[..] == old(bits[..])[b := true]
    {
      was := bits[b];
      bits[b] := true;
    }

    /** `ba_unmark_bmap`. */
    method Unmark(b: nat) returns (was: bool)
      requires b < bits.Length
      modifies bits
      ensures was == old(bits[b]) && bits[..] == old(bits[..])[b := false]
    {
      was := bits[b];
      bits[b] := false;
    }

    /** `ba_mark_bmap_extent` and `ba_unmark_bmap_extent`. */
    method SetExtent(start: nat, num: nat, v: bool)
      requires start + num <= bits.Length
      modifies bits
      ensures forall k :: 0 <= k < bits.Length ==> bits[k] == if start <= k < start + num then v else old(bits[k])
    {
      for i := 0 to num
        invariant forall k :: 0 <= k < bits.Length ==> bits[k] == if start <= k < start + i then v else old(bits[k])
      {
        bits[start + i] := v;
      }
    }

    // ----- Testing a range -----

    /** The mask with `count` bits up to bit `last`, as the loops over mark_bit build it. */
    method Mask(last: int, count: nat) returns (mask: seq<bool>)
      requires -1 <= last < 8 && count <= last + 1
      ensures |mask| == 8 && forall k :: 0 <= k < 8 ==> mask[k] == (last - count < k <= last)
    {
      mask := seq(8, _ => false);
      var i, markBit := count, last;
      while i > 0
        invariant 0 <= i <= count && markBit == last - (count - i)
        invariant |mask| == 8 && forall k :: 0 <= k < 8 ==> mask[k] == (markBit < k <= last)
      {
        mask := mask[markBit := true];
        i, markBit := i - 1, markBit - 1;
      }
    }

    /** `mask & ADDR[byte]`. */
    predicate Masked(mask: seq<bool>, byte: nat)
      requires |mask| == 8 && 8 * byte + 8 <= bits.Length
      reads bits
    {
      exists k :: 0 <= k < 8 && mask[k] && bits[8 * byte + k]
    }

    /** A mask of the bits lo..hi of a byte finds a set bit exactly when there is one in that range. */
    lemma MaskedRange(mask: seq<bool>, byte: nat, lo: nat, hi: nat)
      requires |mask| == 8 && 8 * byte + 8 <= bits.Length && lo <= hi <= 8
      requires forall k :: 0 <= k < 8 ==> mask[k] == (lo <= k < hi)
      ensures !Masked(mask, byte) <==> NoneIn(bits[..], true, 8 * byte + lo, 8 * byte + hi)
    {
      if !Masked(mask, byte) {
        forall b | 8 * byte + lo <= b < 8 * byte + hi ensures !bits[b] {
          assert mask[b - 8 * byte];
        }
      }
    }

    /** From the first bit of a byte on: the bits of the last byte under a mask, then the whole bytes. */
    method TestAligned(startByte: nat, len: nat) returns (clear: bool)
      requires 8 * startByte + len <= bits.Length && Valid()
      ensures clear <==> NoneIn(bits[..], true, 8 * startByte, 8 * startByte + len)
    {
      var lenByte, lenBit := len / 8, len % 8;
      var lastByte := startByte + lenByte;
      if lenBit != 0 {
        var lastBit := Mask(lenBit - 1, lenBit);
        MaskedRange(lastBit, lastByte, 0, lenBit);
        if Masked(lastBit, lastByte) {
          return false;
        } else if lenByte == 0 {
          return true;
        }
      }
      // `ext2fs_mem_is_zero`.
      clear := AllAre(bits[8 * startByte..8 * lastByte], false);
      if clear {
        NoneFurther(bits[..], true, 8 * startByte, 8 * startByte, 8 * lastByte);
      } else {
        var k :| 0 <= k < 8 * lenByte && bits[8 * startByte..8 * lastByte][k];
        assert bits[8 * startByte + k];
      }
    }

    /** `ba_test_clear_bmap_extent`. */
    method TestClearExtent(start: nat, len: nat) returns (clear: bool)
      requires start + len <= bits.Length && Valid()
      ensures clear <==> NoneIn(bits[..], true, start, start + len)
    {
      var startByte, startBit := start / 8, start % 8;
      if startBit == 0 {
        clear := TestAligned(startByte, len);
        return;
      }
      // The range does not begin at the first bit of a byte.
      var markCount, markBit := 8 - startBit, 7;
      if len < 8 - startBit {
        markCount, markBit := len, len + startBit - 1;
      }
      var firstBit := Mask(markBit, markCount);
      MaskedRange(firstBit, startByte, startBit, startBit + markCount);
      if Masked(firstBit, startByte) {
        return false;
      } else if len <= 8 - startBit {
        return true;
      }
      clear := TestAligned(startByte + 1, len - markCount);
    }

    // ----- Searching -----

    /** Bit by bit from bitpos on, at most `count` bits and, if so asked, only up to the next byte boundary. */
    method ScanBits(want: bool, start: nat, bitpos: nat, count: nat, toBoundary: bool) returns (found: bool, pos: nat)
      requires start <= bitpos && bitpos + count <= bits.Length
      requires NoneIn(bits[..], want, start, bitpos)
      ensures bitpos <= pos <= bitpos + count && NoneIn(bits[..], want, start, pos)
      ensures found ==> pos < bitpos + count && bits[pos] == want
      ensures !found ==> pos == bitpos + count || (toBoundary && pos % 8 == 0)
    {
      pos := bitpos;
      while (!toBoundary || pos % 8 != 0) && pos < bitpos + count
        invariant bitpos <= pos <= bitpos + count && NoneIn(bits[..], want, start, pos)
      {
        if bits[pos] == want {
          return true, pos;
        }
        pos := pos + 1;
      }
      return false, pos;
    }

    /** Up to n units of `width` bits that hold nothing wanted. */
    method SkipUnits(want: bool, width: nat, start: nat, bitpos: nat, n: nat) returns (skipped: nat)
      requires start <= bitpos && bitpos + width * n <= bits.Length
      requires NoneIn(bits[..], want, start, bitpos)
      ensures skipped <= n && NoneIn(bits[..], want, start, bitpos + width * skipped)
    {
      var i, pos := n, bitpos;
      assert bitpos + width * 0 == bitpos;
      while i > 0
        invariant 0 <= i <= n && pos == bitpos + width * (n - i)
        invariant NoneIn(bits[..], want, start, pos)
      {
        UnitsFit(width, i, n);
        if !AllAre(bits[pos..pos + width], !want) {
          break;
        }
        NoneFurther(bits[..], want, start, pos, pos + width);
        i, pos := i - 1, pos + width;
      }
      return n - i;
    }

    /** Byte by byte until the address of the byte is a multiple of eight; `base` is the address of the array. */
    method AlignBytes(want: bool, base: nat, start: nat, bitpos: nat, count: nat) returns (byteFound: bool, pos: nat)
      requires start <= bitpos && bitpos + count <= bits.Length
      requires NoneIn(bits[..], want, start, bitpos)
      ensures bitpos <= pos <= bitpos + count && NoneIn(bits[..], want, start, pos)
    {
      pos := bitpos;
      while pos + 8 <= bitpos + count && (base + pos / 8) % 8 != 0
        invariant bitpos <= pos <= bitpos + count && NoneIn(bits[..], want, start, pos)
      {
        if !AllAre(bits[pos..pos + 8], !want) {
          return true, pos;
        }
        NoneFurther(bits[..], want, start, pos, pos + 8);
        pos := pos + 8;
      }
      return false, pos;
    }

    /**
     `ba_find_first_zero` and `ba_find_first_set`, which differ in the value they want: bits up to a byte
     boundary, bytes up to a word boundary, words, bytes, and again bits.
     */
    method FindFirst(want: bool, start: nat, end: nat, base: nat) returns (out: Found)
      requires start <= end < bits.Length
      ensures FirstLike(bits[..], want, start, end, out)
    {
      var found, bitpos := ScanBits(want, start, start, end - start + 1, true);
      if found {
        return At(bitpos);
      }
      if bitpos == end + 1 {
        return Nowhere;
      }
      var byteFound;
      byteFound, bitpos := AlignBytes(want, base, start, bitpos, end + 1 - bitpos);
      if !byteFound {
        var skipped := SkipUnits(want, 64, start, bitpos, (end + 1 - bitpos) / 64);
        bitpos := bitpos + 64 * skipped;
        skipped := SkipUnits(want, 8, start, bitpos, (end + 1 - bitpos) / 8);
        bitpos := bitpos + 8 * skipped;
      }
      found, bitpos := ScanBits(want, start, bitpos, end + 1 - bitpos, false);
      return if found then At(bitpos) else Nowhere;
    }
  }

  lemma UnitsFit(width: nat, i: nat, n: nat)
    requires 0 < i <= n
    ensures width * (n - i) + width == width * (n - i + 1) <= width * n
  {
    assert width * n == width * (n - i + 1) + width * (i - 1);
  }
}
