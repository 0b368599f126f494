/**
 Model of libext2fs/bmap.c for a block-mapped inode: BMAP_SET, BMAP_ALLOC, both, or neither, on the
 tree of BlockTree.
 */
module Bmap {
  import opened BlockTree

  datatype Error = Ok | TooBig | NoIndirect | NoSpace

  /** The pointer that maps logical block l. */
  function Target(limit: nat, l: nat): (p: Place) {
    if l < NDIR then Place(l, 0, 0)
    else if l - NDIR < limit then Place(12, 1, l - NDIR)
    else if l - NDIR - limit < limit * limit then Place(13, 2, l - NDIR - limit)
    else Place(14, 3, l - NDIR - limit - limit * limit)
  }

  /** The first block that cannot be mapped. */
  function MapEnd(limit: nat): (n: nat) {
    NDIR + limit + limit * limit + limit * limit * limit
  }

  lemma Sizes(limit: nat)
    ensures Size(limit, 0) == 1 && Size(limit, 1) == limit && Size(limit, 2) == limit * limit
    ensures Size(limit, 3) == limit * limit * limit
  {
    assert Size(limit, 1) == Size(limit, 0) * limit;
    assert Size(limit, 2) == Size(limit, 1) * limit;
    assert Size(limit, 3) == Size(limit, 2) * limit;
  }

  lemma TargetExists(limit: nat, l: nat)
    requires l < MapEnd(limit)
    ensures Exists(limit, Target(limit, l)) && IsLeaf(Target(limit, l))
  {
    Sizes(limit);
  }

  /** Different blocks are mapped by different pointers. */
  lemma TargetInjective(limit: nat, l: nat, k: nat)
    requires l != k
    ensures Target(limit, l) != Target(limit, k)
  {
  }

  /** The leaves stay, but for p0. */
  ghost predicate LeavesKept(d: Device, ib: seq<nat>, e: Device, ib': seq<nat>, p0: Place)
    requires d.Valid() && e.Valid() && |ib| == |ib'| == NPTRS
  {
    e.limit == d.limit &&
    forall p {:trigger Val(e, ib', p)} {:trigger Val(d, ib, p)} ::
      Exists(d.limit, p) && IsLeaf(p) && p != p0 ==> Val(e, ib', p) == Val(d, ib, p)
  }

  /** phys may stand at p0: it is nothing, or a block in use that is nowhere else in the file. */
  ghost predicate Settable(d: Device, ib: seq<nat>, used: set<nat>, phys: nat, p0: Place)
    requires d.Valid() && |ib| == NPTRS
  {
    phys == 0 || (phys in used && phys < |d.blocks| && Unknown(d, ib, p0, phys))
  }

  /** A pointer other than p0 that has changed leads to a block that was clear. */
  ghost predicate OnlyNew(d: Device, ib: seq<nat>, e: Device, ib': seq<nat>, used0: set<nat>, p0: Place)
    requires d.Valid() && e.Valid() && |ib| == |ib'| == NPTRS
  {
    e.limit == d.limit && |e.blocks| == |d.blocks| &&
    forall p {:trigger Val(e, ib', p)} {:trigger Val(d, ib, p)} ::
      Exists(d.limit, p) && p != p0 ==> Val(e, ib', p) == Val(d, ib, p) || Val(e, ib', p) !in used0
  }

  lemma SettableKept(d: Device, ib: seq<nat>, used: set<nat>, e: Device, ib': seq<nat>, used': set<nat>,
                     phys: nat, p1: Place, p0: Place)
    requires d.Valid() && e.Valid() && |ib| == |ib'| == NPTRS && used <= used'
    requires OnlyNew(d, ib, e, ib', used, p1) && Settable(d, ib, used, phys, p0)
    requires Exists(d.limit, p1) ==> Val(e, ib', p1) == Val(d, ib, p1) || Val(e, ib', p1) !in used
    ensures Settable(e, ib', used', phys, p0)
  {
    if phys != 0 {
      forall p | Exists(e.limit, p) && p != p0 ensures Val(e, ib', p) != phys {
        assert Val(d, ib, p) != phys;
      }
    }
  }

  /** Some pointer leads to b. */
  ghost predicate Pointed(d: Device, ib: seq<nat>, b: nat)
    requires d.Valid() && |ib| == NPTRS
  {
    exists p {:trigger Val(d, ib, p)} :: Exists(d.limit, p) && Val(d, ib, p) == b
  }

  // ----- How many blocks a request takes -----

  /** The pointer to the block in which p is. */
  ghost function Parent(limit: nat, p: Place): (q: Place)
    requires 0 < limit && 0 < p.level
  {
    Place(p.root, p.level - 1, p.at / limit)
  }

  lemma ParentIs(limit: nat, p: Place)
    requires 0 < limit && Exists(limit, p) && 0 < p.level
    ensures Exists(limit, Parent(limit, p)) && !IsLeaf(Parent(limit, p))
    ensures p.at % limit < limit && p == Child(limit, Parent(limit, p), p.at % limit)
  {
    DivMod(p.at, limit, Size(limit, p.level - 1));
  }

  /** What a pointer is without a block to be in. */
  lemma NothingBelow(d: Device, ib: seq<nat>, p: Place)
    requires d.Valid() && |ib| == NPTRS && Exists(d.limit, p) && 0 < p.level
    ensures Exists(d.limit, Parent(d.limit, p)) && (Val(d, ib, Parent(d.limit, p)) == 0 ==> Val(d, ib, p) == 0)
  {
    ParentIs(d.limit, p);
    ChildVal(d, ib, Parent(d.limit, p), p.at % d.limit);
  }

  /** The block in which p would be is missing. */
  ghost predicate Broken(d: Device, ib: seq<nat>, p: Place)
    requires d.Valid() && |ib| == NPTRS && Exists(d.limit, p)
  {
    0 < p.level &&
    (ParentIs(d.limit, p);
     Val(d, ib, Parent(d.limit, p)) == 0)
  }

  /** How many index blocks are missing on the way to p. */
  ghost function Missing(d: Device, ib: seq<nat>, p: Place): (n: nat)
    requires d.Valid() && |ib| == NPTRS && Exists(d.limit, p)
    decreases p.level
  {
    if !Broken(d, ib, p) then 0
    else
      ParentIs(d.limit, p);
      1 + Missing(d, ib, Parent(d.limit, p))
  }

  /** How many blocks a request has to allocate. */
  ghost function Needed(d: Device, ib: seq<nat>, p: Place, set': bool, alloc: bool): (n: nat)
    requires d.Valid() && |ib| == NPTRS && Exists(d.limit, p)
  {
    if !alloc then 0 else Missing(d, ib, p) + if !set' && Val(d, ib, p) == 0 then 1 else 0
  }

  /**
   Why an answer is given: what is needed has been allocated, or there was no block left for it, or an index block is
   missing that was not to be allocated.
   */
  ghost predicate Reason(err: Error, set': bool, alloc: bool, need: nat, spent: int, broken: bool, full: bool) {
    && 0 <= spent && (err == NoIndirect <==> set' && !alloc && broken)
    && (err == NoSpace ==> full && spent < need)
    && (err == Ok ==> spent == need)
  }

  /** A pointer that is not 0 is in a block that is there. */
  lemma NotBroken(d: Device, ib: seq<nat>, p: Place)
    requires d.Valid() && |ib| == NPTRS && Exists(d.limit, p) && Val(d, ib, p) != 0
    ensures !Broken(d, ib, p) && Missing(d, ib, p) == 0
  {
    if 0 < p.level {
      NothingBelow(d, ib, p);
    }
  }

  /** Two levels down: what is missing on the way. */
  lemma MissingBelow(d: Device, ib: seq<nat>, p: Place)
    requires d.Valid() && |ib| == NPTRS && Exists(d.limit, p) && 0 < p.level
    ensures Exists(d.limit, Parent(d.limit, p))
    ensures Missing(d, ib, p) == Needed(d, ib, Parent(d.limit, p), false, true)
    ensures Broken(d, ib, p) <==> Val(d, ib, Parent(d.limit, p)) == 0
  {
    ParentIs(d.limit, p);
    if !Broken(d, ib, p) {
      NotBroken(d, ib, Parent(d.limit, p));
    }
  }

  /** The last step of a way down, from the block that q leads to, which is `ind` by now, to the pointer p, which was v. */
  lemma LastReason(d: Device, ib: seq<nat>, q: Place, p: Place, set': bool, alloc: bool, spent: int, ind: nat, v: nat,
                   err: Error, spent': int, full: bool)
    requires d.Valid() && |ib| == NPTRS && Exists(d.limit, p) && 0 < p.level && q == Parent(d.limit, p) && Exists(d.limit, q)
    requires spent == Needed(d, ib, q, false, alloc) && v == Val(d, ib, p)
    requires ind == 0 <==> Val(d, ib, q) == 0 && !alloc
    requires err in {Ok, NoIndirect, NoSpace} && (err == NoIndirect <==> set' && ind == 0)
    requires err == NoSpace ==> alloc && !set' && ind != 0 && v == 0 && full
    requires spent' == spent + if err == Ok && !set' && alloc && ind != 0 && v == 0 then 1 else 0
    ensures Reason(err, set', alloc, Needed(d, ib, p, set', alloc), spent', Broken(d, ib, p), full)
  {
    MissingBelow(d, ib, p);
  }

  /** The way down ends before its last step. */
  lemma NoReason(d: Device, ib: seq<nat>, q: Place, p: Place, set': bool, alloc: bool, err: Error, spent: int, full: bool)
    requires d.Valid() && |ib| == NPTRS && Exists(d.limit, p) && 0 < p.level && q == Parent(d.limit, p) && Exists(d.limit, q)
    requires Reason(err, false, alloc, Needed(d, ib, q, false, alloc), spent, Broken(d, ib, q), full) && err == NoSpace
    ensures Reason(err, set', alloc, Needed(d, ib, p, set', alloc), spent, Broken(d, ib, p), full)
  {
    assert alloc;
    MissingBelow(d, ib, p);
    assert Needed(d, ib, q, false, alloc) == Missing(d, ib, p) <= Needed(d, ib, p, set', alloc);
  }

  /** The pointer of the inode is 0, and no block is to be allocated for it, or none can be. */
  lemma HoleReason(d: Device, ib: seq<nat>, p: Place, set': bool, alloc: bool, full: bool)
    requires d.Valid() && |ib| == NPTRS && Exists(d.limit, p) && 0 < p.level && ib[p.root] == 0
    ensures Val(d, ib, p) == 0
    ensures !alloc ==> Reason(if set' then NoIndirect else Ok, set', alloc, Needed(d, ib, p, set', alloc), 0, Broken(d, ib, p), full)
    ensures alloc && full ==> Reason(NoSpace, set', alloc, Needed(d, ib, p, set', alloc), 0, Broken(d, ib, p), full)
  {
    LevelOfHole(d, ib, p);
    ParentIs(d.limit, p);
    var q := Parent(d.limit, p);
    if q.level == 0 {
      RootNeeds(d, ib, p.root, alloc);
    } else {
      LevelOfHole(d, ib, q);
    }
  }

  /** It has become a new block. */
  lemma RootReason(d: Device, ib: seq<nat>, e: Device, ib': seq<nat>, p: Place, v: nat, set': bool, err: Error, spent: int, full: bool)
    requires d.Valid() && e.Valid() && |ib| == |ib'| == NPTRS && Exists(d.limit, p) && 0 < p.level && v != 0
    requires ib[p.root] == 0 && Changed(d, ib, e, ib', Place(p.root, 0, 0), v)
    requires Reason(err, set', true, Needed(e, ib', p, set', true), spent, Broken(e, ib', p), full)
    ensures Reason(err, set', true, Needed(d, ib, p, set', true), spent + 1, Broken(d, ib, p), full)
  {
    MissingRoot(d, ib, e, ib', p, v);
  }

  /** A pointer one level down. */
  lemma RootParent(limit: nat, root: nat, at: nat)
    requires at < limit
    ensures Parent(limit, Place(root, 1, at)) == Place(root, 0, 0)
  {
    assert at / limit == 0;
  }

  /** A pointer of the inode needs no other block. */
  lemma RootNeeds(d: Device, ib: seq<nat>, root: nat, alloc: bool)
    requires d.Valid() && |ib| == NPTRS && root < NPTRS
    ensures Exists(d.limit, Place(root, 0, 0)) && Val(d, ib, Place(root, 0, 0)) == ib[root]
    ensures Needed(d, ib, Place(root, 0, 0), false, alloc) == if alloc && ib[root] == 0 then 1 else 0
    ensures Needed(d, ib, Place(root, 0, 0), true, alloc) == 0 && !Broken(d, ib, Place(root, 0, 0))
  {
    assert Level(d, 0, [ib[root]]) == [ib[root]];
  }

  /** With a new block for the pointer of the inode there is one less. */
  lemma {:induction false} MissingRoot(d: Device, ib: seq<nat>, e: Device, ib': seq<nat>, p: Place, v: nat)
    requires d.Valid() && e.Valid() && |ib| == |ib'| == NPTRS && Exists(d.limit, p) && 0 < p.level && v != 0
    requires ib[p.root] == 0 && Changed(d, ib, e, ib', Place(p.root, 0, 0), v)
    ensures Missing(d, ib, p) == Missing(e, ib', p) + 1 && Val(e, ib', p) == Val(d, ib, p) == 0 && Broken(d, ib, p)
    decreases p.level
  {
    ParentIs(d.limit, p);
    LevelOfHole(d, ib, p);
    var q := Parent(d.limit, p);
    assert Val(e, ib', p) == Val(d, ib, p);
    if q.level == 0 {
      assert q == Place(p.root, 0, 0) && Val(d, ib, q) == ib[p.root];
    } else {
      MissingRoot(d, ib, e, ib', q, v);
    }
  }

  /** A file with its device and the block bitmap. */
  class File {
    var ib: seq<nat>
    var dev: Device
    var used: set<nat>
    var blocksAlloc: nat

    ghost predicate Sound()
      reads this
    {
      |ib| == NPTRS && dev.Valid() && Distinct(dev, ib) && InUse(dev, ib, used)
    }

    /** The map of the file. */
    ghost function Map(l: nat): (b: nat)
      requires Sound() && l < MapEnd(dev.limit)
      reads this
    {
      TargetExists(dev.limit, l);
      Val(dev, ib, Target(dev.limit, l))
    }

    /** How many blocks a request for block l has to allocate, index blocks included. */
    ghost function Need(l: nat, set': bool, alloc: bool): (n: nat)
      requires Sound() && l < MapEnd(dev.limit)
      reads this
    {
      TargetExists(dev.limit, l);
      Needed(dev, ib, Target(dev.limit, l), set', alloc)
    }

    /** The index block in which the pointer for block l would be is missing. */
    ghost predicate CutOff(l: nat)
      requires Sound() && l < MapEnd(dev.limit)
      reads this
    {
      TargetExists(dev.limit, l);
      Broken(dev, ib, Target(dev.limit, l))
    }

    ghost predicate AllUsed(lo: nat, hi: nat)
      reads this
    {
      forall c :: lo <= c < hi ==> c in used
    }

    ghost predicate NoneClear()
      reads this
    {
      AllUsed(1, |dev.blocks|)
    }

    /** The first clear block from goal on, or else from the start of the device. */
    method FindFree(goal: nat) returns (b: nat)
      ensures b != 0 ==> b !in used && b < |dev.blocks|
      ensures b != 0 ==> var g := if goal == 0 then 1 else goal;
                         if b >= g then AllUsed(g, b) else AllUsed(g, |dev.blocks|) && AllUsed(1, b)
      ensures b == 0 ==> forall c :: 0 < c < |dev.blocks| ==> c in used
    {
      b := if goal == 0 then 1 else goal;
      ghost var g := b;
      while b < |dev.blocks|
        invariant g <= b && AllUsed(g, b)
      {
        if b !in used {
          return;
        }
        b := b + 1;
      }
      b := 1;
      while b < |dev.blocks|
        invariant b > 0 && forall c :: 0 < c < b && c < |dev.blocks| ==> c in used
      {
        if b !in used {
          return;
        }
        b := b + 1;
      }
      return 0;
    }

    /** `ext2fs_alloc_block` with a buffer: the new block is written full of zeroes. */
    method AllocBlock(goal: nat) returns (b: nat)
      requires Sound()
      modifies `used, `dev
      ensures Sound()
      ensures b == 0 ==> used == old(used) && dev == old(dev) && forall c :: 0 < c < |dev.blocks| ==> c in used
      ensures b != 0 ==> b !in old(used) && b < |dev.blocks| && used == old(used) + {b} && dev.Entries(b) == dev.Zeroes()
      ensures dev.limit == old(dev.limit) && |dev.blocks| == |old(dev.blocks)|
      ensures forall p {:trigger Val(dev, ib, p)} {:trigger old(Val(dev, ib, p))} ::
                Exists(dev.limit, p) ==> Val(dev, ib, p) == old(Val(dev, ib, p)) && (b != 0 ==> Val(dev, ib, p) != b)
    {
      b := FindFree(goal);
      if b != 0 {
        ghost var d := dev;
        dev := dev.Write(b, dev.Zeroes());
        used := used + {b};
        UnknownWritten(d, ib, dev, b);
        SameDistinct(d, ib, dev);
      }
    }

    /**
     `block_ind_bmap`: entry nr of the index block `ind`, which the pointer p leads to. With `set` the
     entry becomes phys; with `alloc` a missing one becomes a new block.
     */
    method IndBmap(set': bool, alloc: bool, ind: nat, nr: nat, phys: nat, ghost p: Place, ghost c: Place)
      returns (err: Error, ret: nat)
      requires Sound() && Exists(dev.limit, p) && !IsLeaf(p) && Val(dev, ib, p) == ind && nr < dev.limit
      requires c == Child(dev.limit, p, nr) && Exists(dev.limit, c)
      requires set' ==> IsLeaf(c) && Settable(dev, ib, used, phys, c)
      modifies `used, `dev, `blocksAlloc
      ensures Sound() && Exists(dev.limit, c)
      ensures Changed(old(dev), ib, dev, ib, c, if err == Ok then ret else old(Val(dev, ib, c)))
      ensures |dev.blocks| == |old(dev.blocks)|
      ensures err == NoIndirect <==> set' && ind == 0
      ensures err == NoSpace ==> alloc && !set' && ind != 0 && old(Val(dev, ib, c)) == 0 && NoneClear()
      ensures err in {Ok, NoIndirect, NoSpace}
      ensures err == Ok && set' ==> ret == phys
      ensures err == Ok && !set' && (old(Val(dev, ib, c)) != 0 || !alloc || ind == 0) ==> ret == old(Val(dev, ib, c))
      ensures if err == Ok && !set' && alloc && ind != 0 && old(Val(dev, ib, c)) == 0
              then ret != 0 && ret !in old(used) && used == old(used) + {ret} && blocksAlloc == old(blocksAlloc) + 1
              else used == old(used) && blocksAlloc == old(blocksAlloc)
      ensures !set' && !alloc ==> err == Ok && dev == old(dev)
    {
      ChildVal(dev, ib, p, nr);
      if ind == 0 {
        if set' {
          return NoIndirect, phys;
        }
        return Ok, 0;
      }
      if set' {
        WriteEntry(ind, nr, phys, p, c);
        return Ok, phys;
      }
      var b := dev.Entries(ind)[nr];
      if b == 0 && alloc {
        b := AllocBlock(if nr > 0 then dev.Entries(ind)[nr - 1] else ind);
        if b == 0 {
          return NoSpace, b;
        }
        ChildVal(dev, ib, p, nr);
        WriteEntry(ind, nr, b, p, c);
        blocksAlloc := blocksAlloc + 1;
      }
      return Ok, b;
    }

    /** The entry is written to the index block on the device. */
    method WriteEntry(ind: nat, nr: nat, v: nat, ghost p: Place, ghost c: Place)
      requires Sound() && Exists(dev.limit, p) && !IsLeaf(p) && Val(dev, ib, p) == ind && ind != 0 && nr < dev.limit
      requires c == Child(dev.limit, p, nr) && Exists(dev.limit, c) && Settable(dev, ib, used, v, c)
      requires !IsLeaf(c) ==> Val(dev, ib, c) == 0 && dev.Entries(v) == dev.Zeroes()
      modifies `dev
      ensures Sound() && |dev.blocks| == |old(dev.blocks)| && Changed(old(dev), ib, dev, ib, c, v)
    {
      ghost var d := dev;
      ChildVal(d, ib, p, nr);
      dev := dev.Write(ind, dev.Entries(ind)[nr := v]);
      EntryWritten(d, dev, ib, ind, p, nr, v);
      ChangedDistinct(d, ib, dev, ib, c, v);
    }

    /** The same step of a way down, with the account of the blocks since its beginning. */
    method IndStep(set': bool, alloc: bool, ind: nat, nr: nat, phys: nat, ghost p: Place, ghost c: Place,
                   ghost used0: set<nat>, ghost n0: nat)
      returns (err: Error, ret: nat)
      requires Sound() && Exists(dev.limit, p) && !IsLeaf(p) && Val(dev, ib, p) == ind && nr < dev.limit
      requires c == Child(dev.limit, p, nr) && Exists(dev.limit, c)
      requires set' ==> IsLeaf(c) && Settable(dev, ib, used, phys, c)
      requires Accounted(dev, ib, used, blocksAlloc, used0, n0) && (Val(dev, ib, c) == 0 || Val(dev, ib, c) in used0)
      modifies `used, `dev, `blocksAlloc
      ensures Sound() && Exists(dev.limit, c) && Accounted(dev, ib, used, blocksAlloc, used0, n0) && old(used) <= used
      ensures Changed(old(dev), ib, dev, ib, c, if err == Ok then ret else old(Val(dev, ib, c)))
      ensures |dev.blocks| == |old(dev.blocks)|
      ensures err == NoIndirect <==> set' && ind == 0
      ensures err == NoSpace ==> alloc && !set' && ind != 0 && old(Val(dev, ib, c)) == 0 && NoneClear()
      ensures err in {Ok, NoIndirect, NoSpace}
      ensures err == Ok && set' ==> ret == phys
      ensures err == Ok && !set' && (old(Val(dev, ib, c)) != 0 || !alloc || ind == 0) ==> ret == old(Val(dev, ib, c))
      ensures err == Ok && !set' && alloc && ind != 0 && old(Val(dev, ib, c)) == 0 ==> ret != 0 && ret !in old(used)
      ensures blocksAlloc == old(blocksAlloc) +
              if err == Ok && !set' && alloc && ind != 0 && old(Val(dev, ib, c)) == 0 then 1 else 0
      ensures !set' && !alloc ==> err == Ok && dev == old(dev) && used == old(used)
    {
      ghost var d, u, n := dev, used, blocksAlloc;
      err, ret := IndBmap(set', alloc, ind, nr, phys, p, c);
      AccountedStep(d, ib, u, n, used0, n0, dev, used, blocksAlloc, c, Val(dev, ib, c));
    }

    /** `block_dind_bmap`: by way of the index block that entry nr / limit of `dind` points to. */
    method DindBmap(set': bool, alloc: bool, dind: nat, nr: nat, phys: nat, ghost p0: Place)
      returns (err: Error, ret: nat)
      requires Sound() && p0.root in {13, 14} && p0 == Place(p0.root, 2, nr) && Exists(dev.limit, p0)
      requires ib[p0.root] == dind != 0
      requires set' ==> IsLeaf(p0) && Settable(dev, ib, used, phys, p0)
      modifies `used, `dev, `blocksAlloc
      ensures Sound() && Exists(dev.limit, p0) && LeavesKept(old(dev), ib, dev, ib, p0)
      ensures Val(dev, ib, p0) == if err == Ok then ret else old(Val(dev, ib, p0))
      ensures Answer(err, ret, set', alloc, phys, old(Val(dev, ib, p0)), old(used))
      ensures Reason(err, set', alloc, old(Needed(dev, ib, p0, set', alloc)), blocksAlloc - old(blocksAlloc), old(Broken(dev, ib, p0)),
                     NoneClear())
      ensures Accounted(dev, ib, used, blocksAlloc, old(used), old(blocksAlloc))
      ensures OnlyNew(old(dev), ib, dev, ib, old(used), p0)
      ensures !set' && !alloc ==> err == Ok && dev == old(dev) && used == old(used)
    {
      Sizes(dev.limit);
      DivMod(nr, dev.limit, dev.limit);
      var q, r := nr / dev.limit, nr % dev.limit;
      ghost var root, p1 := Place(p0.root, 0, 0), Place(p0.root, 1, q);
      ghost var d, u, n := dev, used, blocksAlloc;
      RootNeeds(d, ib, p0.root, alloc);
      RootParent(dev.limit, p0.root, q);
      err, ret := IndStep(false, alloc, dind, q, 0, root, p1, u, n);
      LastReason(d, ib, root, p1, false, alloc, 0, dind, Val(d, ib, p1), err, blocksAlloc - n, NoneClear());
      if err != Ok {
        NoReason(d, ib, p1, p0, set', alloc, err, blocksAlloc - n, NoneClear());
        return;
      }
      if set' {
        SettableKept(d, ib, u, dev, ib, used, phys, p1, p0);
      }
      ghost var spent, ind := blocksAlloc - n, ret;
      err, ret := IndStep(set', alloc, ret, r, phys, p1, p0, u, n);
      LastReason(d, ib, p1, p0, set', alloc, spent, ind, Val(d, ib, p0), err, blocksAlloc - n, NoneClear());
    }

    /** `block_tind_bmap`. */
    method TindBmap(set': bool, alloc: bool, tind: nat, nr: nat, phys: nat, ghost p0: Place)
      returns (err: Error, ret: nat)
      requires Sound() && p0 == Place(14, 3, nr) && Exists(dev.limit, p0) && ib[14] == tind != 0
      requires set' ==> Settable(dev, ib, used, phys, p0)
      modifies `used, `dev, `blocksAlloc
      ensures Sound() && Exists(dev.limit, p0) && LeavesKept(old(dev), ib, dev, ib, p0)
      ensures Val(dev, ib, p0) == if err == Ok then ret else old(Val(dev, ib, p0))
      ensures Answer(err, ret, set', alloc, phys, old(Val(dev, ib, p0)), old(used))
      ensures Reason(err, set', alloc, old(Needed(dev, ib, p0, set', alloc)), blocksAlloc - old(blocksAlloc), old(Broken(dev, ib, p0)),
                     NoneClear())
      ensures Accounted(dev, ib, used, blocksAlloc, old(used), old(blocksAlloc))
      ensures !set' && !alloc ==> err == Ok && dev == old(dev) && used == old(used)
    {
      Sizes(dev.limit);
      DivMod(nr, dev.limit, dev.limit * dev.limit);
      var q, r := nr / dev.limit, nr % dev.limit;
      ghost var p2 := Place(14, 2, q);
      ghost var d, u, n := dev, used, blocksAlloc;
      err, ret := DindBmap(false, alloc, tind, q, 0, p2);
      if err != Ok {
        NoReason(d, ib, p2, p0, set', alloc, err, blocksAlloc - n, NoneClear());
        return;
      }
      if set' {
        SettableKept(d, ib, u, dev, ib, used, phys, p2, p0);
      }
      ghost var spent, ind := blocksAlloc - n, ret;
      err, ret := IndStep(set', alloc, ret, r, phys, p2, p0, u, n);
      LastReason(d, ib, p2, p0, set', alloc, spent, ind, Val(d, ib, p0), err, blocksAlloc - n, NoneClear());
    }

    /** A block below NDIR_BLOCKS, whose pointer is in the inode itself. */
    method DirectBmap(set': bool, alloc: bool, l: nat, phys: nat, goal: nat) returns (err: Error, ret: nat)
      requires Sound() && l < NDIR && (set' ==> Settable(dev, ib, used, phys, Place(l, 0, 0)))
      modifies this
      ensures Sound() && Changed(old(dev), old(ib), dev, ib, Place(l, 0, 0), if err == Ok then ret else old(ib[l]))
      ensures Answer(err, ret, set', alloc, phys, old(ib[l]), old(used))
      ensures Reason(err, set', alloc, old(Needed(dev, ib, Place(l, 0, 0), set', alloc)), blocksAlloc - old(blocksAlloc),
                     old(Broken(dev, ib, Place(l, 0, 0))),
                     NoneClear())
      ensures Accounted(dev, ib, used, blocksAlloc, old(used), old(blocksAlloc))
      ensures !set' && !alloc ==> err == Ok && dev == old(dev) && ib == old(ib) && used == old(used)
    {
      ghost var c := Place(l, 0, 0);
      RootNeeds(dev, ib, l, alloc);
      if set' {
        SetRoot(l, phys);
        return Ok, phys;
      }
      ret := ib[l];
      if ret == 0 && alloc {
        ret := NewRoot(l, if l > 0 then ib[l - 1] else goal);
        if ret == 0 {
          return NoSpace, 0;
        }
      }
      return Ok, ret;
    }

    /** A pointer of the inode is stored. */
    method SetRoot(root: nat, v: nat)
      requires Sound() && root < NPTRS && Settable(dev, ib, used, v, Place(root, 0, 0))
      requires Depth(root) > 0 ==> ib[root] == 0 && dev.Entries(v) == dev.Zeroes()
      modifies `ib
      ensures Sound() && ib == old(ib)[root := v] && Changed(dev, old(ib), dev, ib, Place(root, 0, 0), v)
    {
      RootWritten(dev, ib, root, v);
      ChangedDistinct(dev, ib, dev, ib[root := v], Place(root, 0, 0), v);
      ib := ib[root := v];
    }

    /** A new block for a pointer of the inode that was 0. */
    method NewRoot(root: nat, goal: nat) returns (b: nat)
      requires Sound() && root < NPTRS && ib[root] == 0
      modifies this
      ensures Sound() && Changed(old(dev), old(ib), dev, ib, Place(root, 0, 0), b)
      ensures if b == 0 then dev == old(dev) && ib == old(ib) && used == old(used) && blocksAlloc == old(blocksAlloc) && NoneClear()
              else b !in old(used) && used == old(used) + {b} && blocksAlloc == old(blocksAlloc) + 1 && ib[root] == b
      ensures |dev.blocks| == |old(dev.blocks)|
    {
      ghost var c := Place(root, 0, 0);
      assert Val(dev, ib, c) == ib[root];
      b := AllocBlock(goal);
      if b != 0 {
        SetRoot(root, b);
        blocksAlloc := blocksAlloc + 1;
        assert Val(dev, ib, c) == b;
      }
    }

    /** A block behind the pointer `root` of the inode, which is allocated first if need be. */
    method RootedBmap(set': bool, alloc: bool, root: nat, nr: nat, phys: nat, ghost p0: Place) returns (err: Error, ret: nat)
      requires Sound() && NDIR <= root < NPTRS && p0 == Place(root, Depth(root), nr) && Exists(dev.limit, p0)
      requires set' ==> Settable(dev, ib, used, phys, p0)
      modifies this
      ensures Sound() && Exists(dev.limit, p0) && LeavesKept(old(dev), old(ib), dev, ib, p0)
      ensures Val(dev, ib, p0) == if err == Ok then ret else old(Val(dev, ib, p0))
      ensures Answer(err, ret, set', alloc, phys, old(Val(dev, ib, p0)), old(used))
      ensures Reason(err, set', alloc, old(Needed(dev, ib, p0, set', alloc)), blocksAlloc - old(blocksAlloc), old(Broken(dev, ib, p0)),
                     NoneClear())
      ensures Accounted(dev, ib, used, blocksAlloc, old(used), old(blocksAlloc))
      ensures !set' && !alloc ==> err == Ok && dev == old(dev) && ib == old(ib) && used == old(used)
    {
      Sizes(dev.limit);
      ghost var d, ib0, u, n, c := dev, ib, used, blocksAlloc, Place(root, 0, 0);
      assert Val(dev, ib, c) == ib[root];
      if ib[root] == 0 {
        HoleReason(d, ib0, p0, set', alloc, true);
        if !alloc {
          return if set' then NoIndirect else Ok, 0;
        }
        var b := NewRoot(root, ib[root - 1]);
        if b == 0 {
          return NoSpace, 0;
        }
        if set' {
          SettableKept(d, ib0, u, dev, ib, used, phys, c, p0);
        }
        err, ret := AfterNewRoot(set', root, nr, phys, p0, d, ib0, b);
      } else {
        err, ret := BehindRoot(set', alloc, root, nr, phys, p0);
      }
      assert Val(dev, ib, c) == ib[root];
      assert Pointed(dev, ib, ib[root]);
    }

    /** Behind a pointer of the inode that has become the new block b; d0 and ib0 are what was before. */
    method AfterNewRoot(set': bool, root: nat, nr: nat, phys: nat, ghost p0: Place, ghost d0: Device, ghost ib0: seq<nat>, ghost b: nat)
      returns (err: Error, ret: nat)
      requires Sound() && NDIR <= root < NPTRS && p0 == Place(root, Depth(root), nr) && Exists(dev.limit, p0)
      requires d0.Valid() && |ib0| == NPTRS && ib0[root] == 0 && Changed(d0, ib0, dev, ib, Place(root, 0, 0), b) && b != 0
      requires ib[root] == b && (set' ==> Settable(dev, ib, used, phys, p0))
      modifies `used, `dev, `blocksAlloc
      ensures Sound() && Exists(dev.limit, p0) && LeavesKept(old(dev), ib, dev, ib, p0)
      ensures Val(dev, ib, p0) == if err == Ok then ret else old(Val(dev, ib, p0))
      ensures Answer(err, ret, set', true, phys, old(Val(dev, ib, p0)), old(used))
      ensures Exists(d0.limit, p0) && Reason(err, set', true, Needed(d0, ib0, p0, set', true), blocksAlloc - old(blocksAlloc) + 1,
                                            Broken(d0, ib0, p0), NoneClear())
      ensures Accounted(dev, ib, used, blocksAlloc, old(used), old(blocksAlloc))
    {
      ghost var e := dev;
      err, ret := BehindRoot(set', true, root, nr, phys, p0);
      RootReason(d0, ib0, e, ib, p0, b, set', err, blocksAlloc - old(blocksAlloc), NoneClear());
    }

    /** The three lengths of the way down. */
    method BehindRoot(set': bool, alloc: bool, root: nat, nr: nat, phys: nat, ghost p0: Place) returns (err: Error, ret: nat)
      requires Sound() && NDIR <= root < NPTRS && p0 == Place(root, Depth(root), nr) && Exists(dev.limit, p0)
      requires ib[root] != 0 && (set' ==> Settable(dev, ib, used, phys, p0))
      modifies `used, `dev, `blocksAlloc
      ensures Sound() && Exists(dev.limit, p0) && LeavesKept(old(dev), ib, dev, ib, p0)
      ensures Val(dev, ib, p0) == if err == Ok then ret else old(Val(dev, ib, p0))
      ensures Answer(err, ret, set', alloc, phys, old(Val(dev, ib, p0)), old(used))
      ensures Reason(err, set', alloc, old(Needed(dev, ib, p0, set', alloc)), blocksAlloc - old(blocksAlloc), old(Broken(dev, ib, p0)),
                     NoneClear())
      ensures Accounted(dev, ib, used, blocksAlloc, old(used), old(blocksAlloc))
      ensures !set' && !alloc ==> err == Ok && dev == old(dev) && used == old(used)
    {
      Sizes(dev.limit);
      if root == 12 {
        ghost var d, u, n := dev, used, blocksAlloc;
        RootNeeds(d, ib, 12, alloc);
        RootParent(dev.limit, 12, nr);
        err, ret := IndBmap(set', alloc, ib[12], nr, phys, Place(12, 0, 0), p0);
        AccountedStep(d, ib, u, n, u, n, dev, used, blocksAlloc, p0, Val(dev, ib, p0));
        LastReason(d, ib, Place(12, 0, 0), p0, set', alloc, 0, ib[12], Val(d, ib, p0), err, blocksAlloc - n, NoneClear());
      } else if root == 13 {
        err, ret := DindBmap(set', alloc, ib[13], nr, phys, p0);
      } else {
        err, ret := TindBmap(set', alloc, ib[14], nr, phys, p0);
      }
    }

    /**
     `ext2fs_bmap2`. The map of the file changes at l only, and there as asked; every pointer stays the
     only one to its block; blocks_alloc counts the blocks newly in use, and the pointers in `ib`, the inode in
     memory, and on the device lead to all of them, even when the answer is that there is no space. That is the answer only
     if no block is left and more are needed; and a missing index block is reported exactly if it is not to be allocated.
     */
    method Bmap2(set': bool, alloc: bool, l: nat, phys: nat, goal: nat) returns (err: Error, ret: nat)
      requires Sound()
      requires set' && l < MapEnd(dev.limit) ==> Settable(dev, ib, used, phys, Target(dev.limit, l))
      modifies this
      ensures Sound() && dev.limit == old(dev.limit)
      ensures err == TooBig <==> l >= 0xFFFF_FFFF || l >= MapEnd(dev.limit)
      ensures err == TooBig ==> dev == old(dev) && ib == old(ib) && used == old(used)
      ensures err != TooBig ==> forall k: nat :: k < MapEnd(dev.limit) ==>
                Map(k) == if k == l && err == Ok then ret else old(Map(k))
      ensures err != TooBig ==> Answer(err, ret, set', alloc, phys, old(Map(l)), old(used))
      ensures err != TooBig ==> Reason(err, set', alloc, old(Need(l, set', alloc)), blocksAlloc, old(CutOff(l)), NoneClear())
      ensures Accounted(dev, ib, used, blocksAlloc, old(used), 0)
      ensures err != TooBig && !set' && !alloc ==> err == Ok && dev == old(dev) && ib == old(ib) && used == old(used)
    {
      blocksAlloc := 0;
      var limit := dev.limit;
      if l >= 0xFFFF_FFFF || l >= MapEnd(limit) {
        return TooBig, 0;
      }
      TargetExists(limit, l);
      ghost var d, ib0, p0 := dev, ib, Target(limit, l);
      if l < NDIR {
        err, ret := DirectBmap(set', alloc, l, phys, goal);
      } else if l - NDIR < limit {
        err, ret := RootedBmap(set', alloc, 12, l - NDIR, phys, p0);
      } else if l - NDIR - limit < limit * limit {
        err, ret := RootedBmap(set', alloc, 13, l - NDIR - limit, phys, p0);
      } else {
        err, ret := RootedBmap(set', alloc, 14, l - NDIR - limit - limit * limit, phys, p0);
      }
      MapKept(d, ib0, dev, ib, l);
    }
  }

  /** Nothing is behind a pointer of the inode that is 0. */
  lemma LevelOfHole(d: Device, ib: seq<nat>, p: Place)
    requires d.Valid() && |ib| == NPTRS && Exists(d.limit, p) && ib[p.root] == 0 && p.level > 0
    ensures Val(d, ib, p) == 0
  {
    LevelZero(d, p.level);
    LevelLength(d, p.level, 0);
  }

  ghost predicate AllZero(s: seq<nat>) {
    forall i :: 0 <= i < |s| ==> s[i] == 0
  }

  lemma {:induction false} LevelZero(d: Device, k: nat)
    requires d.Valid()
    ensures AllZero(Level(d, k, [0]))
  {
    if k > 0 {
      LevelZero(d, k - 1);
      ExpandZero(d, Level(d, k - 1, [0]));
    }
  }

  lemma {:induction false} ExpandZero(d: Device, s: seq<nat>)
    requires d.Valid() && AllZero(s)
    ensures AllZero(Expand(d, s))
  {
    if s != [] {
      ExpandZero(d, s[1..]);
    }
  }

  lemma MapKept(d: Device, ib: seq<nat>, e: Device, ib': seq<nat>, l: nat)
    requires d.Valid() && e.Valid() && |ib| == |ib'| == NPTRS && LeavesKept(d, ib, e, ib', Target(d.limit, l))
    ensures forall k: nat :: k < MapEnd(d.limit) && k != l ==>
              Exists(d.limit, Target(d.limit, k)) && Val(e, ib', Target(d.limit, k)) == Val(d, ib, Target(d.limit, k))
  {
    forall k: nat | k < MapEnd(d.limit) && k != l
      ensures Exists(d.limit, Target(d.limit, k)) && Val(e, ib', Target(d.limit, k)) == Val(d, ib, Target(d.limit, k))
    {
      TargetExists(d.limit, k);
      TargetInjective(d.limit, l, k);
    }
  }

  /** All blocks newly in use are counted, and some pointer leads to each of them. */
  ghost predicate Accounted(d: Device, ib: seq<nat>, used: set<nat>, n: nat, used0: set<nat>, n0: nat)
    requires d.Valid() && |ib| == NPTRS
  {
    && used0 <= used && |used| - |used0| == n - n0
    && (forall b :: b in used && b !in used0 ==> b != 0 && Pointed(d, ib, b))
  }

  /** One more pointer changes, which did not lead to a new block, and perhaps to a new one now. */
  lemma AccountedStep(d: Device, ib: seq<nat>, used: set<nat>, n: nat, used0: set<nat>, n0: nat,
                      e: Device, used': set<nat>, n': nat, p0: Place, v: nat)
    requires d.Valid() && e.Valid() && |ib| == NPTRS && Exists(d.limit, p0)
    requires Accounted(d, ib, used, n, used0, n0) && Changed(d, ib, e, ib, p0, v)
    requires Val(d, ib, p0) == 0 || Val(d, ib, p0) in used0
    requires if used' == used then n' == n else v != 0 && v !in used && used' == used + {v} && n' == n + 1
    ensures Accounted(e, ib, used', n', used0, n0)
  {
    forall b | b in used' && b !in used0 ensures b != 0 && Pointed(e, ib, b) {
      if b in used {
        assert Pointed(d, ib, b);
        var p :| Exists(d.limit, p) && Val(d, ib, p) == b;
        assert Val(e, ib, p) == b;
      } else {
        assert Val(e, ib, p0) == b;
      }
    }
  }

  /** What a request for the pointer that held `was` answers. */
  ghost predicate Answer(err: Error, ret: nat, set': bool, alloc: bool, phys: nat, was: nat, used0: set<nat>) {
    && (err == NoIndirect ==> set' && !alloc)
    && (err == NoSpace ==> alloc)
    && (err != TooBig)
    && (err == Ok && set' ==> ret == phys)
    && (err == Ok && !set' && (was != 0 || !alloc) ==> ret == was)
    && (err == Ok && !set' && was == 0 && alloc ==> ret != 0 && ret !in used0)
  }

  lemma SameDistinct(d: Device, ib: seq<nat>, e: Device)
    requires d.Valid() && e.Valid() && |ib| == NPTRS && e.limit == d.limit && Distinct(d, ib)
    requires forall p {:trigger Val(e, ib, p)} :: Exists(d.limit, p) ==> Val(e, ib, p) == Val(d, ib, p)
    ensures Distinct(e, ib)
  {
    forall p, c | Exists(d.limit, p) && Exists(d.limit, c) && p != c && Val(e, ib, p) != 0 ensures Apart(e, ib, p, c) {
      assert Apart(d, ib, p, c);
    }
  }
}
