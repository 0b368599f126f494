/**
 The tree of a block-mapped inode: its fifteen pointers and the index blocks behind the last three.
 libext2fs/bmap.c goes down to one block of it, libext2fs/block.c walks all of it.
 */
module BlockTree {

  /** The disk, as far as index blocks matter: `limit` block numbers to a block. */
  datatype Device = Device(limit: nat, blocks: seq<seq<nat>>) {
    ghost predicate Valid() {
      limit > 0 && forall b :: 0 <= b < |blocks| ==> |blocks[b]| == limit
    }

    function Zeroes(): (es: seq<nat>)
      ensures |es| == limit && forall i :: 0 <= i < limit ==> es[i] == 0
    {
      seq(limit, _ => 0)
    }

    /** The entries of an index block; a hole, or a pointer beyond the device, leads to nothing. */
    function Entries(b: nat): (es: seq<nat>)
      requires Valid()
      ensures |es| == limit
    {
      if 0 < b < |blocks| then blocks[b] else Zeroes()
    }

    function Write(b: nat, es: seq<nat>): (d: Device)
      requires Valid() && b < |blocks| && |es| == limit
      ensures d.Valid() && d.limit == limit && |d.blocks| == |blocks|
      ensures b > 0 ==> d.Entries(b) == es
      ensures forall c :: c != b ==> d.Entries(c) == Entries(c)
    {
      Device(limit, blocks[b := es])
    }
  }

  // ----- Levels -----

  /** One level down: the entries of all the blocks of s, in order. */
  function Expand(d: Device, s: seq<nat>): (t: seq<nat>)
    requires d.Valid()
  {
    if s == [] then [] else d.Entries(s[0]) + Expand(d, s[1..])
  }

  /** k levels down. */
  function Level(d: Device, k: nat, s: seq<nat>): (t: seq<nat>)
    requires d.Valid()
  {
    if k == 0 then s else Expand(d, Level(d, k - 1, s))
  }

  lemma {:induction false} ExpandAt(d: Device, s: seq<nat>, q: nat, r: nat)
    requires d.Valid() && q < |s| && r < d.limit
    ensures q * d.limit + r < |Expand(d, s)| && Expand(d, s)[q * d.limit + r] == d.Entries(s[q])[r]
  {
    if q > 0 {
      ExpandAt(d, s[1..], q - 1, r);
      assert q * d.limit + r == d.limit + ((q - 1) * d.limit + r);
    }
  }

  lemma {:induction false} ExpandLength(d: Device, s: seq<nat>)
    requires d.Valid()
    ensures |Expand(d, s)| == |s| * d.limit
  {
    if s != [] {
      ExpandLength(d, s[1..]);
      assert |s| * d.limit == d.limit + (|s| - 1) * d.limit;
    }
  }

  lemma DivMod(n: nat, limit: nat, m: nat)
    requires limit > 0
    ensures n == (n / limit) * limit + n % limit && n % limit < limit
    ensures n < m * limit ==> n / limit < m
  {
    var q := n / limit;
    assert n == limit * q + n % limit;
    if q >= m {
      assert q * limit == m * limit + (q - m) * limit;
      assert (q - m) * limit >= 0;
    }
  }

  lemma {:induction false} ExpandConcat(d: Device, s: seq<nat>, t: seq<nat>)
    requires d.Valid()
    ensures Expand(d, s + t) == Expand(d, s) + Expand(d, t)
  {
    if s == [] {
      assert s + t == t;
    } else {
      calc {
        Expand(d, s + t);
        { assert (s + t)[0] == s[0] && (s + t)[1..] == s[1..] + t; }
        d.Entries(s[0]) + Expand(d, s[1..] + t);
        { ExpandConcat(d, s[1..], t); }
        d.Entries(s[0]) + (Expand(d, s[1..]) + Expand(d, t));
        Expand(d, s) + Expand(d, t);
      }
    }
  }

  /** Blocks with the same entries on both devices expand alike. */
  lemma {:induction false} ExpandSame(d: Device, e: Device, s: seq<nat>, t: seq<nat>)
    requires d.Valid() && e.Valid() && |s| == |t|
    requires forall i :: 0 <= i < |s| ==> d.Entries(s[i]) == e.Entries(t[i])
    ensures Expand(d, s) == Expand(e, t)
  {
    if s != [] {
      ExpandSame(d, e, s[1..], t[1..]);
    }
  }

  lemma ExpandSplit(d: Device, s: seq<nat>, q: nat)
    requires d.Valid() && q < |s|
    ensures Expand(d, s) == Expand(d, s[..q]) + d.Entries(s[q]) + Expand(d, s[q + 1..])
    ensures |Expand(d, s[..q])| == q * d.limit
  {
    assert s == s[..q] + s[q..] && s[q..][1..] == s[q + 1..];
    ExpandConcat(d, s[..q], s[q..]);
    ExpandLength(d, s[..q]);
  }

  lemma UpdateMiddle(a: seq<nat>, x: seq<nat>, c: seq<nat>, r: nat, v: nat)
    requires r < |x|
    ensures (a + x + c)[|a| + r := v] == a + x[r := v] + c
  {
  }

  /** One entry r of one block q changes. */
  lemma ExpandUpdate(d: Device, e: Device, s: seq<nat>, q: nat, r: nat, v: nat)
    requires d.Valid() && e.Valid() && d.limit == e.limit && q < |s| && r < d.limit
    requires e.Entries(s[q]) == d.Entries(s[q])[r := v]
    requires forall i :: 0 <= i < |s| && i != q ==> d.Entries(s[i]) == e.Entries(s[i])
    ensures q * d.limit + r < |Expand(d, s)|
    ensures Expand(e, s) == Expand(d, s)[q * d.limit + r := v]
  {
    ExpandSplit(d, s, q);
    ExpandSplit(e, s, q);
    ExpandSame(d, e, s[..q], s[..q]);
    ExpandSame(d, e, s[q + 1..], s[q + 1..]);
    UpdateMiddle(Expand(d, s[..q]), d.Entries(s[q]), Expand(d, s[q + 1..]), r, v);
  }

  // ----- Places -----

  const NDIR := 12
  const NPTRS := 15

  /** How many levels of index blocks a pointer of the inode stands for. */
  function Depth(root: nat): (k: nat) {
    if root < NDIR then 0 else root - 11
  }

  /** A pointer in the tree: number `at` of those `level` levels below the pointer `root` of the inode. */
  datatype Place = Place(root: nat, level: nat, at: nat)

  function Size(limit: nat, level: nat): (n: nat) {
    if level == 0 then 1 else Size(limit, level - 1) * limit
  }

  ghost predicate Exists(limit: nat, p: Place) {
    p.root < NPTRS && p.level <= Depth(p.root) && p.at < Size(limit, p.level)
  }

  ghost predicate IsLeaf(p: Place) {
    p.level == Depth(p.root)
  }

  lemma {:induction false} LevelLength(d: Device, k: nat, b: nat)
    requires d.Valid()
    ensures |Level(d, k, [b])| == Size(d.limit, k)
  {
    if k > 0 {
      LevelLength(d, k - 1, b);
      ExpandLength(d, Level(d, k - 1, [b]));
    }
  }

  /** What the pointer holds. */
  ghost function Val(d: Device, ib: seq<nat>, p: Place): (v: nat)
    requires d.Valid() && |ib| == NPTRS && Exists(d.limit, p)
  {
    LevelLength(d, p.level, ib[p.root]);
    Level(d, p.level, [ib[p.root]])[p.at]
  }

  ghost function Child(limit: nat, p: Place, r: nat): (c: Place) {
    Place(p.root, p.level + 1, p.at * limit + r)
  }

  lemma ChildExists(limit: nat, p: Place, r: nat)
    requires Exists(limit, p) && !IsLeaf(p) && r < limit
    ensures Exists(limit, Child(limit, p, r))
  {
    ProductMonotone(p.at + 1, Size(limit, p.level), limit);
    assert (p.at + 1) * limit == p.at * limit + limit;
  }

  lemma ProductMonotone(a: nat, b: nat, m: nat)
    requires a <= b
    ensures a * m <= b * m
  {
    var c := b - a;
    assert b * m == (a + c) * m == a * m + c * m;
  }

  /** A pointer is an entry of the block its parent points to. */
  lemma ChildVal(d: Device, ib: seq<nat>, p: Place, r: nat)
    requires d.Valid() && |ib| == NPTRS && Exists(d.limit, p) && !IsLeaf(p) && r < d.limit
    ensures Exists(d.limit, Child(d.limit, p, r))
    ensures Val(d, ib, Child(d.limit, p, r)) == d.Entries(Val(d, ib, p))[r]
  {
    ChildExists(d.limit, p, r);
    LevelLength(d, p.level, ib[p.root]);
    ExpandAt(d, Level(d, p.level, [ib[p.root]]), p.at, r);
  }

  ghost predicate Apart(d: Device, ib: seq<nat>, p: Place, c: Place)
    requires d.Valid() && |ib| == NPTRS && Exists(d.limit, p) && Exists(d.limit, c)
  {
    Val(d, ib, p) != Val(d, ib, c)
  }

  /** No block is pointed to twice. */
  ghost predicate Distinct(d: Device, ib: seq<nat>)
    requires d.Valid() && |ib| == NPTRS
  {
    forall p, c {:trigger Apart(d, ib, p, c)} ::
      Exists(d.limit, p) && Exists(d.limit, c) && p != c && Val(d, ib, p) != 0 ==> Apart(d, ib, p, c)
  }

  /** Every block pointed to is on the device and marked in use. */
  ghost predicate InUse(d: Device, ib: seq<nat>, used: set<nat>)
    requires d.Valid() && |ib| == NPTRS
  {
    forall p {:trigger Val(d, ib, p)} ::
      Exists(d.limit, p) && Val(d, ib, p) != 0 ==> Val(d, ib, p) in used && Val(d, ib, p) < |d.blocks|
  }

  /** All pointers stay, but for p0, which is v now. */
  ghost predicate Changed(d: Device, ib: seq<nat>, e: Device, ib': seq<nat>, p0: Place, v: nat)
    requires d.Valid() && e.Valid() && |ib| == |ib'| == NPTRS
  {
    e.limit == d.limit &&
    forall p {:trigger Val(e, ib', p)} {:trigger Val(d, ib, p)} ::
      Exists(d.limit, p) ==> Val(e, ib', p) == if p == p0 then v else Val(d, ib, p)
  }

  /** Nobody but p0 points to v. */
  ghost predicate Unknown(d: Device, ib: seq<nat>, p0: Place, v: nat)
    requires d.Valid() && |ib| == NPTRS
  {
    forall p {:trigger Val(d, ib, p)} :: Exists(d.limit, p) && p != p0 ==> Val(d, ib, p) != v
  }

  lemma ChangedDistinct(d: Device, ib: seq<nat>, e: Device, ib': seq<nat>, p0: Place, v: nat)
    requires d.Valid() && e.Valid() && |ib| == |ib'| == NPTRS
    requires Distinct(d, ib) && Changed(d, ib, e, ib', p0, v)
    requires v == 0 || Unknown(d, ib, p0, v)
    ensures Distinct(e, ib')
  {
    forall p, c | Exists(d.limit, p) && Exists(d.limit, c) && p != c && Val(e, ib', p) != 0
      ensures Apart(e, ib', p, c)
    {
      if p != p0 && c != p0 {
        assert Apart(d, ib, p, c);
      }
    }
  }

  /** A block that is on no level keeps its contents to itself. */
  lemma {:induction false} LevelSame(d: Device, e: Device, k: nat, b: nat, x: nat)
    requires d.Valid() && e.Valid() && d.limit == e.limit
    requires forall c :: c != x ==> d.Entries(c) == e.Entries(c)
    requires forall m, i :: 0 <= m < k && 0 <= i < |Level(d, m, [b])| ==> Level(d, m, [b])[i] != x
    ensures Level(e, k, [b]) == Level(d, k, [b])
  {
    if k > 0 {
      LevelSame(d, e, k - 1, b, x);
      var s := Level(d, k - 1, [b]);
      forall i | 0 <= i < |s| ensures d.Entries(s[i]) == e.Entries(s[i]) {
        assert s[i] != x;
      }
      ExpandSame(d, e, s, s);
    }
  }

  /** Rewriting a block that nobody points to changes no pointer. */
  lemma UnknownWritten(d: Device, ib: seq<nat>, e: Device, x: nat)
    requires d.Valid() && e.Valid() && |ib| == NPTRS && d.limit == e.limit
    requires forall c :: c != x ==> d.Entries(c) == e.Entries(c)
    requires forall p {:trigger Val(d, ib, p)} :: Exists(d.limit, p) ==> Val(d, ib, p) != x
    ensures forall p {:trigger Val(e, ib, p)} {:trigger Val(d, ib, p)} :: Exists(d.limit, p) ==> Val(e, ib, p) == Val(d, ib, p)
  {
    forall p | Exists(d.limit, p) ensures Val(e, ib, p) == Val(d, ib, p) {
      NotOnLevels(d, ib, p.root, p.level, x, Place(NPTRS, 0, 0));
      LevelSame(d, e, p.level, ib[p.root], x);
    }
  }

  lemma NotOnLevels(d: Device, ib: seq<nat>, root: nat, k: nat, x: nat, p0: Place)
    requires d.Valid() && |ib| == NPTRS && root < NPTRS && k <= Depth(root)
    requires forall p {:trigger Val(d, ib, p)} :: Exists(d.limit, p) && p != p0 ==> Val(d, ib, p) != x
    requires root == p0.root ==> k <= p0.level
    ensures forall m, i :: 0 <= m < k && 0 <= i < |Level(d, m, [ib[root]])| ==> Level(d, m, [ib[root]])[i] != x
  {
    forall m, i | 0 <= m < k && 0 <= i < |Level(d, m, [ib[root]])| ensures Level(d, m, [ib[root]])[i] != x {
      LevelLength(d, m, ib[root]);
      assert Val(d, ib, Place(root, m, i)) == Level(d, m, [ib[root]])[i];
    }
  }

  /** Entry r of the block x at p0 becomes v. */
  ghost predicate EntryIs(d: Device, e: Device, ib: seq<nat>, x: nat, p0: Place, r: nat, v: nat) {
    && d.Valid() && e.Valid() && |ib| == NPTRS && d.limit == e.limit && r < d.limit
    && Exists(d.limit, p0) && !IsLeaf(p0) && Val(d, ib, p0) == x && x != 0
    && (forall p {:trigger Val(d, ib, p)} :: Exists(d.limit, p) && p != p0 ==> Val(d, ib, p) != x)
    && (forall c :: c != x ==> d.Entries(c) == e.Entries(c))
    && e.Entries(x) == d.Entries(x)[r := v]
    && (p0.level + 1 < Depth(p0.root) ==> d.Entries(x)[r] == 0 && d.Entries(v) == d.Zeroes() && v != x)
  }

  /** The level below x: one pointer has become v. */
  lemma LevelNext(d: Device, e: Device, ib: seq<nat>, x: nat, p0: Place, r: nat, v: nat)
    requires EntryIs(d, e, ib, x, p0, r, v)
    ensures var b, k, at := ib[p0.root], p0.level + 1, Child(d.limit, p0, r).at;
            at < |Level(d, k, [b])| && Level(e, k, [b]) == Level(d, k, [b])[at := v]
  {
    var b := ib[p0.root];
    NotOnLevels(d, ib, p0.root, p0.level, x, p0);
    LevelSame(d, e, p0.level, b, x);
    LevelLength(d, p0.level, b);
    var s := Level(d, p0.level, [b]);
    forall i | 0 <= i < |s| && i != p0.at ensures d.Entries(s[i]) == e.Entries(s[i]) {
      assert Val(d, ib, Place(p0.root, p0.level, i)) == s[i];
    }
    ExpandUpdate(d, e, s, p0.at, r, v);
  }

  /** The levels further down: v leads to nothing, as the 0 before it. */
  lemma {:induction false} LevelBelow(d: Device, e: Device, ib: seq<nat>, x: nat, p0: Place, r: nat, v: nat, k: nat)
    requires EntryIs(d, e, ib, x, p0, r, v)
    requires p0.level + 1 < k <= Depth(p0.root)
    ensures Level(e, k, [ib[p0.root]]) == Level(d, k, [ib[p0.root]])
    decreases k
  {
    var b, c := ib[p0.root], Child(d.limit, p0, r);
    var s, t := Level(d, k - 1, [b]), Level(e, k - 1, [b]);
    LevelLength(d, k - 1, b);
    LevelLength(e, k - 1, b);
    ChildVal(d, ib, p0, r);
    if k - 1 == p0.level + 1 {
      LevelNext(d, e, ib, x, p0, r, v);
    } else {
      LevelBelow(d, e, ib, x, p0, r, v, k - 1);
    }
    forall i | 0 <= i < |s| ensures d.Entries(s[i]) == e.Entries(t[i]) {
      assert Val(d, ib, Place(p0.root, k - 1, i)) == s[i];
    }
    ExpandSame(d, e, s, t);
  }

  lemma OnlyAt(d: Device, ib: seq<nat>, p0: Place, x: nat)
    requires d.Valid() && |ib| == NPTRS && Exists(d.limit, p0) && Val(d, ib, p0) == x && Distinct(d, ib) && x != 0
    ensures forall p {:trigger Val(d, ib, p)} :: Exists(d.limit, p) && p != p0 ==> Val(d, ib, p) != x
  {
    forall p | Exists(d.limit, p) && p != p0 ensures Val(d, ib, p) != x {
      assert Apart(d, ib, p0, p);
    }
  }

  /** Entry r of the block at p0 becomes v: only that pointer changes. */
  lemma EntryWritten(d: Device, e: Device, ib: seq<nat>, x: nat, p0: Place, r: nat, v: nat)
    requires d.Valid() && e.Valid() && |ib| == NPTRS && d.limit == e.limit && r < d.limit
    requires Exists(d.limit, p0) && !IsLeaf(p0)
    requires Val(d, ib, p0) == x && Distinct(d, ib) && x != 0
    requires forall c :: c != x ==> d.Entries(c) == e.Entries(c)
    requires e.Entries(x) == d.Entries(x)[r := v]
    requires p0.level + 1 < Depth(p0.root) ==> d.Entries(x)[r] == 0 && d.Entries(v) == d.Zeroes() && v != x
    ensures Changed(d, ib, e, ib, Child(d.limit, p0, r), v)
  {
    OnlyAt(d, ib, p0, x);
    var c := Child(d.limit, p0, r);
    forall p | Exists(d.limit, p) ensures Val(e, ib, p) == if p == c then v else Val(d, ib, p) {
      LevelLength(d, p.level, ib[p.root]);
      LevelLength(e, p.level, ib[p.root]);
      if p.root == p0.root && p.level == p0.level + 1 {
        LevelNext(d, e, ib, x, p0, r, v);
      } else if p.root == p0.root && p.level > p0.level {
        LevelBelow(d, e, ib, x, p0, r, v, p.level);
      } else {
        NotOnLevels(d, ib, p.root, p.level, x, p0);
        LevelSame(d, e, p.level, ib[p.root], x);
      }
    }
  }

  /** A pointer of the inode that was 0 becomes v, which leads to nothing. */
  lemma RootWritten(d: Device, ib: seq<nat>, root: nat, v: nat)
    requires d.Valid() && |ib| == NPTRS && root < NPTRS
    requires Depth(root) > 0 ==> ib[root] == 0 && d.Entries(v) == d.Zeroes()
    ensures Changed(d, ib, d, ib[root := v], Place(root, 0, 0), v)
  {
    forall p | Exists(d.limit, p)
      ensures Val(d, ib[root := v], p) == if p == Place(root, 0, 0) then v else Val(d, ib, p)
    {
      if p.root == root && p.level > 0 {
        LevelOfZero(d, p.level, v);
        LevelOfZero(d, p.level, 0);
      }
    }
  }

  lemma {:induction false} LevelOfZero(d: Device, k: nat, v: nat)
    requires d.Valid() && d.Entries(v) == d.Zeroes() && k > 0
    ensures Level(d, k, [v]) == Level(d, k, [0])
  {
    if k == 1 {
      assert [v][1..] == [] && [0][1..] == [];
    } else {
      LevelOfZero(d, k - 1, v);
    }
  }
}
