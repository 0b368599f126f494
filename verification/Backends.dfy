/**
 The two backends of a 64-bit bitmap, driven by the same operations: both refine one list of bits.
 */
module Backends {
  import opened Runs
  import RbBitmap
  import BaBitmap

  datatype Op =
    | Mark(bit: nat)
    | Unmark(bit: nat)
    | Test(bit: nat)
    | MarkExtent(start: nat, num: nat)
    | UnmarkExtent(start: nat, num: nat)
    | TestClearExtent(start: nat, num: nat)
    | FindZero(start: nat, end: nat)
    | FindSet(start: nat, end: nat)

  datatype Answer = Bit(value: bool) | Place(found: Found) | Done

  /** What gen_bitmap64.c checks before it calls a backend. */
  ghost predicate InRange(op: Op, n: nat) {
    match op
    case Mark(b) => b < n
    case Unmark(b) => b < n
    case Test(b) => b < n
    case MarkExtent(start, num) => start + num <= n
    case UnmarkExtent(start, num) => start + num <= n
    case TestClearExtent(start, num) => start + num <= n
    case FindZero(start, end) => start <= end < n
    case FindSet(start, end) => start <= end < n
  }

  function Filled(bits: seq<bool>, start: nat, num: nat, v: bool): (t: seq<bool>)
    ensures |t| == |bits|
    ensures forall k :: 0 <= k < |t| ==> t[k] == if start <= k < start + num then v else bits[k]
  {
    seq(|bits|, k requires 0 <= k < |bits| => if start <= k < start + num then v else bits[k])
  }

  function Effect(bits: seq<bool>, op: Op): (t: seq<bool>)
    ensures |t| == |bits|
  {
    match op
    case Mark(b) => Filled(bits, b, 1, true)
    case Unmark(b) => Filled(bits, b, 1, false)
    case MarkExtent(start, num) => Filled(bits, start, num, true)
    case UnmarkExtent(start, num) => Filled(bits, start, num, false)
    case _ => bits
  }

  /** The bits after the first n operations. */
  function After(bits: seq<bool>, ops: seq<Op>, n: nat): (t: seq<bool>)
    requires n <= |ops|
    ensures |t| == |bits|
  {
    if n == 0 then bits else Effect(After(bits, ops, n - 1), ops[n - 1])
  }

  ghost predicate Right(bits: seq<bool>, op: Op, a: Answer)
    requires InRange(op, |bits|)
  {
    match op
    case Mark(b) => a == Bit(bits[b])
    case Unmark(b) => a == Bit(bits[b])
    case Test(b) => a == Bit(bits[b])
    case MarkExtent(_, _) => a == Done
    case UnmarkExtent(_, _) => a == Done
    case TestClearExtent(start, num) => a == Bit(BaBitmap.NoneIn(bits, true, start, start + num))
    case FindZero(start, end) => a.Place? && BaBitmap.FirstLike(bits, false, start, end, a.found)
    case FindSet(start, end) => a.Place? && BaBitmap.FirstLike(bits, true, start, end, a.found)
  }

  /** There is only one right answer. */
  lemma RightUnique(bits: seq<bool>, op: Op, a: Answer, b: Answer)
    requires InRange(op, |bits|) && Right(bits, op, a) && Right(bits, op, b)
    ensures a == b
  {
  }

  /** The tree gives another answer here: see UnmarkAnswer and FindFirstZero. */
  ghost predicate Quirk(bits: seq<bool>, op: Op) {
    match op
    case Unmark(b) => b + 1 < |bits| && !bits[b] && bits[b + 1]
    case FindZero(_, _) => AllAre(bits, false)
    case _ => false
  }

  ghost predicate Same(s: seq<Run>, bits: seq<bool>) {
    forall b: nat :: Has(s, b) <==> b < |bits| && bits[b]
  }

  lemma SameUnion(s: seq<Run>, t: seq<Run>, bits: seq<bool>, start: nat, num: nat)
    requires Same(s, bits) && Union(s, t, start, start + num) && start + num <= |bits|
    ensures Same(t, Filled(bits, start, num, true))
  {
  }

  lemma SameMinus(s: seq<Run>, t: seq<Run>, bits: seq<bool>, start: nat, num: nat)
    requires Same(s, bits) && Minus(s, t, start, start + num) && start + num <= |bits|
    ensures Same(t, Filled(bits, start, num, false))
  {
  }

  lemma SameClear(s: seq<Run>, bits: seq<bool>, lo: nat, hi: nat)
    requires Same(s, bits) && hi <= |bits|
    ensures AllClear(s, lo, hi) <==> BaBitmap.NoneIn(bits, true, lo, hi)
  {
    if AllClear(s, lo, hi) {
      forall k | lo <= k < hi ensures !bits[k] {
        assert !Has(s, k);
      }
    }
  }

  lemma SameFirst(s: seq<Run>, bits: seq<bool>, start: nat, end: nat, out: Found)
    requires Same(s, bits) && start <= end < |bits|
    ensures FirstZero(s, start, end, out) <==> BaBitmap.FirstLike(bits, false, start, end, out)
    ensures FirstSet(s, start, end, out) <==> BaBitmap.FirstLike(bits, true, start, end, out)
  {
    var hi := if out.At? then out.bit else end + 1;
    if hi <= |bits| {
      SameClear(s, bits, start, hi);
      assert (forall b: nat :: start <= b < hi ==> Has(s, b)) <==> BaBitmap.NoneIn(bits, false, start, hi) by {
        if forall b: nat :: start <= b < hi ==> Has(s, b) {
          forall k | start <= k < hi ensures bits[k] {
            assert Has(s, k);
          }
        }
      }
    }
  }

  lemma SameEmpty(s: seq<Run>, bits: seq<bool>)
    requires Same(s, bits) && Canonical(s)
    ensures s == [] <==> AllAre(bits, false)
  {
    if s != [] {
      HasAt(s, 0, s[0].start);
    } else {
      forall k | 0 <= k < |bits| ensures !bits[k] {
        assert !Has(s, k);
      }
    }
  }

  method MarkBits(rb: RbBitmap.Bitmap, start: nat, num: nat, ghost bits: seq<bool>) returns (was: bool)
    requires rb.Valid() && Same(rb.Runs(), bits) && start + num <= |bits|
    modifies rb, rb.nodes
    ensures rb.Valid() && Same(rb.Runs(), Filled(bits, start, num, true)) && (num > 0 ==> (was <==> bits[start]))
    ensures forall k :: 0 <= k < |rb.nodes| ==> rb.nodes[k] in old(rb.nodes) || fresh(rb.nodes[k])
  {
    ghost var s := rb.Runs();
    was := rb.InsertExtent(start, num);
    SameUnion(s, rb.Runs(), bits, start, num);
  }

  method ClearBits(rb: RbBitmap.Bitmap, start: nat, num: nat, ghost bits: seq<bool>) returns (was: bool)
    requires rb.Valid() && Same(rb.Runs(), bits) && start + num <= |bits|
    modifies rb, rb.nodes
    ensures rb.Valid() && Same(rb.Runs(), Filled(bits, start, num, false))
    ensures num == 1 ==> ((was <==> bits[start]) <==> !Quirk(bits, Unmark(start)))
    ensures forall k :: 0 <= k < |rb.nodes| ==> rb.nodes[k] in old(rb.nodes) || fresh(rb.nodes[k])
  {
    ghost var s := rb.Runs();
    UnmarkAnswer(s, start);
    was := rb.RemoveExtent(start, num);
    SameMinus(s, rb.Runs(), bits, start, num);
  }

  /** The tree carries out one operation. */
  method StepTree(rb: RbBitmap.Bitmap, op: Op, ghost bits: seq<bool>) returns (a: Answer)
    requires rb.Valid() && Same(rb.Runs(), bits) && InRange(op, |bits|)
    modifies rb, rb.nodes
    ensures rb.Valid() && Same(rb.Runs(), Effect(bits, op))
    ensures Right(bits, op, a) <==> !Quirk(bits, op)
    ensures forall k :: 0 <= k < |rb.nodes| ==> rb.nodes[k] in old(rb.nodes) || fresh(rb.nodes[k])
  {
    ghost var s := rb.Runs();
    match op {
      case Mark(b) =>
        var was := MarkBits(rb, b, 1, bits);
        a := Bit(was);
      case Unmark(b) =>
        var was := ClearBits(rb, b, 1, bits);
        a := Bit(was);
      case Test(b) =>
        var was := rb.TestBit(b);
        a := Bit(was);
      case MarkExtent(start, num) =>
        var _ := MarkBits(rb, start, num, bits);
        a := Done;
      case UnmarkExtent(start, num) =>
        var _ := ClearBits(rb, start, num, bits);
        a := Done;
      case TestClearExtent(start, num) =>
        var clear := rb.TestClearExtent(start, num);
        SameClear(s, bits, start, start + num);
        a := Bit(clear);
      case FindZero(start, end) =>
        var out := rb.FindFirstZero(start, end);
        SameFirst(s, bits, start, end, out);
        SameEmpty(s, bits);
        a := Place(out);
      case FindSet(start, end) =>
        var out := rb.FindFirstSet(start, end);
        SameFirst(s, bits, start, end, out);
        a := Place(out);
    }
  }

  /** The array carries out one operation; `base` is its address. */
  method StepArray(ba: BaBitmap.BitArray, op: Op, base: nat) returns (a: Answer)
    requires ba.Valid() && InRange(op, ba.bits.Length)
    modifies ba.bits
    ensures ba.bits[..] == Effect(old(ba.bits[..]), op)
    ensures Right(old(ba.bits[..]), op, a)
  {
    match op {
      case Mark(b) =>
        var was := ba.Mark(b);
        a := Bit(was);
      case Unmark(b) =>
        var was := ba.Unmark(b);
        a := Bit(was);
      case Test(b) =>
        a := Bit(ba.bits[b]);
      case MarkExtent(start, num) =>
        ba.SetExtent(start, num, true);
        a := Done;
      case UnmarkExtent(start, num) =>
        ba.SetExtent(start, num, false);
        a := Done;
      case TestClearExtent(start, num) =>
        var clear := ba.TestClearExtent(start, num);
        a := Bit(clear);
      case FindZero(start, end) =>
        var out := ba.FindFirst(false, start, end, base);
        a := Place(out);
      case FindSet(start, end) =>
        var out := ba.FindFirst(true, start, end, base);
        a := Place(out);
    }
  }

  method StepBoth(rb: RbBitmap.Bitmap, ba: BaBitmap.BitArray, op: Op, base: nat) returns (t: Answer, a: Answer)
    requires rb.Valid() && ba.Valid() && Same(rb.Runs(), ba.bits[..]) && InRange(op, ba.bits.Length)
    modifies rb, rb.nodes, ba.bits
    ensures rb.Valid() && ba.bits[..] == Effect(old(ba.bits[..]), op) && Same(rb.Runs(), ba.bits[..])
    ensures AgreedOn(old(ba.bits[..]), op, t, a)
    ensures forall k :: 0 <= k < |rb.nodes| ==> rb.nodes[k] in old(rb.nodes) || fresh(rb.nodes[k])
  {
    ghost var bits := ba.bits[..];
    t := StepTree(rb, op, bits);
    a := StepArray(ba, op, base);
    if Right(bits, op, t) {
      RightUnique(bits, op, t, a);
    }
  }

  /**
   The first n of any list of operations, on both backends, from the same bits: they end with the same bits, the array
   answers right throughout, and so does the tree but for its two quirks.
   */
  method Drive(rb: RbBitmap.Bitmap, ba: BaBitmap.BitArray, ops: seq<Op>, n: nat, base: nat)
    returns (fromTree: seq<Answer>, fromArray: seq<Answer>)
    requires rb.Valid() && ba.Valid() && Same(rb.Runs(), ba.bits[..])
    requires AllInRange(ops, ba.bits.Length) && n <= |ops|
    modifies rb, rb.nodes, ba.bits
    ensures rb.Valid() && ba.bits[..] == After(old(ba.bits[..]), ops, n) && Same(rb.Runs(), ba.bits[..])
    ensures AllAgreed(old(ba.bits[..]), ops, n, fromTree, fromArray)
    ensures forall k :: 0 <= k < |rb.nodes| ==> rb.nodes[k] in old(rb.nodes) || fresh(rb.nodes[k])
  {
    if n == 0 {
      return [], [];
    }
    ghost var first := ba.bits[..];
    fromTree, fromArray := Drive(rb, ba, ops, n - 1, base);
    var t, a := StepBoth(rb, ba, ops[n - 1], base);
    AgreedNext(first, ops, n - 1, fromTree, fromArray, t, a);
    fromTree, fromArray := fromTree + [t], fromArray + [a];
  }

  ghost predicate AllInRange(ops: seq<Op>, n: nat) {
    forall i :: 0 <= i < |ops| ==> InRange(ops[i], n)
  }

  ghost predicate AllAgreed(first: seq<bool>, ops: seq<Op>, n: nat, t: seq<Answer>, a: seq<Answer>)
    requires AllInRange(ops, |first|)
  {
    |t| == |a| == n <= |ops| && forall i :: 0 <= i < n ==> Agreed(first, ops, i, t[i], a[i])
  }

  lemma AgreedNext(first: seq<bool>, ops: seq<Op>, n: nat, ts: seq<Answer>, answers: seq<Answer>, t: Answer, a: Answer)
    requires AllInRange(ops, |first|) && AllAgreed(first, ops, n, ts, answers) && n < |ops| && Agreed(first, ops, n, t, a)
    ensures AllAgreed(first, ops, n + 1, ts + [t], answers + [a])
  {
  }

  /** Operation i is answered right by the array, and alike by the tree unless it meets a quirk. */
  ghost predicate Agreed(first: seq<bool>, ops: seq<Op>, i: nat, t: Answer, a: Answer)
    requires i < |ops| && InRange(ops[i], |first|)
  {
    AgreedOn(After(first, ops, i), ops[i], t, a)
  }

  ghost predicate AgreedOn(bits: seq<bool>, op: Op, t: Answer, a: Answer)
    requires InRange(op, |bits|)
  {
    Right(bits, op, a) && (t == a <==> !Quirk(bits, op))
  }
}
