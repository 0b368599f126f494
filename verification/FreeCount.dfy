/**
 Counting: the clear bits of a stretch of a bitmap, the groups a bitmap is cut into, and the counters
 that libext2fs/alloc_stats.c keeps of them.
 */
module FreeCount {
  import opened GenBitmap

  /** How many of the bits lo..hi are clear. */
  function ClearIn(bits: seq<bool>, lo: nat, hi: nat): (n: nat)
    ensures lo <= hi ==> n <= hi - lo
    decreases hi
  {
    if hi <= lo then 0 else ClearIn(bits, lo, hi - 1) + if hi - 1 < |bits| && !bits[hi - 1] then 1 else 0
  }

  function Min(a: nat, b: nat): nat { if a < b then a else b }

  function Max(a: nat, b: nat): nat { if a < b then b else a }

  /** How many numbers two ranges share. */
  function Overlap(a: nat, b: nat, lo: nat, hi: nat): (n: nat) {
    if Max(a, lo) < Min(b, hi) then Min(b, hi) - Max(a, lo) else 0
  }

  /** bits' is bits with a..b, which was all !v, set to v. */
  ghost predicate Flipped(bits: seq<bool>, bits': seq<bool>, a: nat, b: nat, v: bool) {
    && a <= b <= |bits| == |bits'|
    && (forall k :: 0 <= k < |bits| ==> bits'[k] == if a <= k < b then v else bits[k])
    && (forall k :: a <= k < b ==> bits[k] == !v)
  }

  lemma {:induction false} ClearFlipped(bits: seq<bool>, bits': seq<bool>, a: nat, b: nat, v: bool, lo: nat, hi: nat)
    requires Flipped(bits, bits', a, b, v)
    ensures ClearIn(bits', lo, hi) == ClearIn(bits, lo, hi) + if v then 0 - Overlap(a, b, lo, hi) else Overlap(a, b, lo, hi)
    decreases hi
  {
    if hi > lo {
      ClearFlipped(bits, bits', a, b, v, lo, hi - 1);
    }
  }

  function Sum(s: seq<nat>): (n: nat) {
    if s == [] then 0 else Sum(s[..|s| - 1]) + s[|s| - 1]
  }

  lemma {:induction false} SumUpdate(s: seq<nat>, i: nat, v: nat)
    requires i < |s|
    ensures Sum(s[i := v]) == Sum(s) - s[i] + v
    decreases |s|
  {
    var n := |s| - 1;
    if i == n {
      assert s[i := v][..n] == s[..n];
    } else {
      SumUpdate(s[..n], i, v);
      assert s[i := v][..n] == s[..n][i := v];
    }
  }

  // ----- Multiples -----

  lemma {:induction false} BaseAdd(m: nat, a: nat, b: nat)
    ensures Base(m, a + b) == Base(m, a) + Base(m, b)
  {
    if b > 0 {
      BaseAdd(m, a, b - 1);
      assert a + b - 1 == a + (b - 1);
    }
  }

  lemma {:induction false} BaseBase(m: nat, k: nat, g: nat)
    ensures Base(Base(m, k), g) == Base(m, Base(k, g))
  {
    if g > 0 {
      BaseBase(m, k, g - 1);
      BaseAdd(m, Base(k, g - 1), k);
    }
  }

  lemma BaseMonotone(m: nat, a: nat, b: nat)
    requires a <= b
    ensures Base(m, a) <= Base(m, b)
  {
    BaseAdd(m, a, b - a);
  }

  lemma BaseStrict(m: nat, a: nat, b: nat)
    requires m > 0
    ensures Base(m, a) < Base(m, b) <==> a < b
  {
    if a < b {
      BaseAdd(m, a, b - a);
    } else {
      BaseMonotone(m, b, a);
    }
  }
}
