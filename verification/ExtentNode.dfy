/**
 Model of the cursor of libext2fs/extent.c on a tree held in one node (max_depth == 0, level == 0):
 the node in the inode, its entries array and the cursor that walks it.

 When the node is full, an insertion asks extent_node_split for a new block; here that request is
 refused, as it is on a full disk, so the node never outgrows itself.
 */
module ExtentNode {
  import opened ExtentList

  /** `struct ext3_extent`, as stored. */
  datatype Rec = Rec(block: nat, rawLen: nat, start: nat)

  /** How `ext2fs_extent_get` reads a stored extent. */
  function Decode(r: Rec): (e: Extent) {
    if r.rawLen > INIT_MAX_LEN then Extent(r.block, r.start, r.rawLen - INIT_MAX_LEN, true)
    else Extent(r.block, r.start, r.rawLen, false)
  }

  /** How `ext2fs_extent_replace` stores one. */
  function Encode(e: Extent): (r: Rec) {
    Rec(e.lblk, if e.uninit then e.len + INIT_MAX_LEN else e.len, e.pblk)
  }

  /** The top bit of the stored length is the uninit flag, except that 0x8000 is an initialized extent. */
  lemma DecodeEncode(e: Extent)
    ensures Decode(Encode(e)) == e <==> (if e.uninit then e.len > 0 else e.len <= INIT_MAX_LEN)
  {
  }

  function Decoded(rs: seq<Rec>): (s: seq<Extent>)
    ensures |s| == |rs|
  {
    seq(|rs|, i requires 0 <= i < |rs| => Decode(rs[i]))
  }

  datatype Error = Ok | NoNext | NoPrev | NoCurrentNode | NotFound | InvalidLength | NoSpace

  datatype Op = Root | NextSib | PrevSib | NextLeaf | PrevLeaf | Current

  /** `struct ext2_extent_handle` with its `path[0]`. The index -1 is the null `curr`. */
  class Handle {
    var buf: array<Rec>
    var entries: nat
    var left: nat
    var curr: int

    ghost predicate Valid()
      reads this
    {
      && entries <= buf.Length
      && (curr == -1 || 0 <= curr)
      && (curr == -1 ==> left == entries)
      && (curr >= 0 ==> curr + left + 1 == entries)
    }

    /** The list the node stands for. */
    ghost function Extents(): (s: seq<Extent>)
      requires entries <= buf.Length
      reads `entries, `buf, buf
      ensures |s| == entries
    {
      Decoded(buf[..entries])
    }

    /** `ext2fs_extent_open2` on the node in the inode. */
    constructor (node: array<Rec>, count: nat)
      requires count <= node.Length
      ensures Valid() && buf == node && entries == count && curr == -1
    {
      buf, entries, left, curr := node, count, count, -1;
    }

    /** `ext2fs_extent_get`. */
    method Get(op: Op) returns (err: Error, e: Extent)
      requires Valid()
      modifies this`left, this`curr
      ensures Valid()
      ensures err == Ok ==> 0 <= curr < entries && e == Extents()[curr]
      ensures err != Ok && op != Root ==> curr == old(curr)
      ensures op == Current ==> (err == Ok <==> curr != -1) && curr == old(curr) && (err != Ok ==> err == NoCurrentNode)
      ensures op == Root ==> (err == Ok <==> entries > 0) && (err == Ok ==> curr == 0) && (err != Ok ==> curr == -1 && err == NoNext)
      ensures op == NextSib || op == NextLeaf ==>
                (err == Ok <==> old(curr) + 1 < entries) && (err == Ok ==> curr == old(curr) + 1) && (err != Ok ==> err == NoNext)
      ensures op == PrevSib || op == PrevLeaf ==>
                (err == Ok <==> old(curr) > 0) && (err == Ok ==> curr == old(curr) - 1) && (err != Ok ==> err == NoPrev)
    {
      err, e := Ok, Extent(0, 0, 0, false);
      match op {
        case Root =>
          left, curr := entries, -1;
          if left <= 0 { return NoNext, e; }
          curr, left := 0, left - 1;
        case NextSib =>
          if left <= 0 { return NoNext, e; }
          curr, left := curr + 1, left - 1;
        case NextLeaf =>
          if left > 0 {
            curr, left := curr + 1, left - 1;
          } else {
            return NoNext, e;
          }
        case PrevSib =>
          if curr == -1 || left + 1 >= entries { return NoPrev, e; }
          curr, left := curr - 1, left + 1;
        case PrevLeaf =>
          if left < entries - 1 {
            if curr == -1 || left + 1 >= entries { return NoPrev, e; }
            curr, left := curr - 1, left + 1;
          } else {
            return NoPrev, e;
          }
        case Current =>
      }
      if curr == -1 { return NoCurrentNode, e; }
      e := Decode(buf[curr]);
    }

    /** `ext2fs_extent_goto2` to the leaf level. */
    method Goto(l: nat) returns (err: Error)
      requires Valid()
      modifies this`left, this`curr
      ensures Valid()
      ensures entries == 0 ==> err == NotFound && curr == -1
      ensures entries > 0 ==> var (found, i) := GotoFrom(Extents(), l, 0); curr == i && err == if found then Ok else NotFound
    {
      var e;
      err, e := Get(Root);
      if err != Ok {
        return NotFound;
      }
      while true
        invariant Valid() && 0 <= curr < entries && e == Extents()[curr]
        invariant GotoFrom(Extents(), l, 0) == GotoFrom(Extents(), l, curr)
        decreases left
      {
        if e.Contains(l) {
          return Ok;
        }
        if l < e.lblk {
          var _, _ := Get(PrevSib);
          return NotFound;
        }
        err, e := Get(NextSib);
        if err == NoNext {
          return NotFound;
        }
      }
    }

    /** `ext2fs_extent_replace`. */
    method Replace(e: Extent) returns (err: Error)
      requires Valid()
      requires e.uninit ==> e.len > 0
      modifies buf
      ensures Valid()
      ensures err == if curr == -1 then NoCurrentNode else if e.len > MaxLen(e.uninit) then InvalidLength else Ok
      ensures err == Ok ==> Extents() == old(Extents())[curr := e]
      ensures err == NoCurrentNode ==> Extents() == old(Extents())
      ensures err == InvalidLength ==> forall i :: 0 <= i < buf.Length && i != curr ==> buf[i] == old(buf[i])
    {
      if curr == -1 {
        return NoCurrentNode;
      }
      buf[curr] := Rec(e.lblk, buf[curr].rawLen, e.pblk);
      if e.len > MaxLen(e.uninit) {
        return InvalidLength;
      }
      buf[curr] := Encode(e);
      DecodeEncode(e);
      assert Extents() == old(Extents())[curr := e];
      return Ok;
    }

    /** The move of the entries from ix on one place up. */
    method OpenGap(ix: nat)
      requires ix <= entries < buf.Length
      modifies buf
      ensures forall k :: 0 <= k <= entries && k != ix ==> buf[k] == old(buf[if k < ix then k else k - 1])
    {
      forall i | ix <= i < entries {
        buf[i + 1] := buf[i];
      }
    }

    method CloseGap(ix: nat)
      requires ix < entries <= buf.Length
      modifies buf
      ensures forall k :: 0 <= k < entries - 1 ==> buf[k] == old(buf[if k < ix then k else k + 1])
    {
      forall i | ix <= i < entries - 1 {
        buf[i] := buf[i + 1];
      }
    }

    /** `ext2fs_extent_delete`. */
    method Delete() returns (err: Error)
      requires Valid()
      modifies this`entries, this`left, this`curr, buf
      ensures Valid()
      ensures err == if old(curr) == -1 then NoCurrentNode else Ok
      ensures err == Ok ==> Extents() == old(Extents()[..curr]) + old(Extents()[curr + 1..])
      ensures err == Ok ==> curr == if old(curr) < entries then old(curr) else old(curr) - 1
      ensures err != Ok ==> Extents() == old(Extents()) && curr == -1
    {
      if curr == -1 {
        return NoCurrentNode;
      }
      ghost var s, c := buf[..entries], curr;
      if left > 0 {
        CloseGap(curr);
        left := left - 1;
      } else {
        curr := curr - 1;
      }
      entries := entries - 1;
      DecodedSplit(s, buf[..entries], c);
      if entries == 0 {
        curr := -1;
      }
      return Ok;
    }

    /** `ext2fs_extent_insert`: before the cursor, or after it; the cursor ends on the new extent. */
    method Insert(after: bool, e: Extent) returns (err: Error)
      requires Valid()
      requires curr == -1 ==> entries == 0
      requires 0 < e.len <= MaxLen(e.uninit)
      modifies this`entries, this`left, this`curr, buf
      ensures Valid()
      ensures err == if old(entries) == buf.Length then NoSpace else Ok
      ensures err != Ok ==> Extents() == old(Extents()) && curr == old(curr)
      ensures err == Ok ==> curr == if after || old(curr) == -1 then old(curr) + 1 else old(curr)
      ensures err == Ok ==> Extents() == Splice(old(Extents()), curr, curr, [e])
    {
      if entries >= buf.Length {
        return NoSpace;
      }
      var ix: nat, l: int := 0, -1;
      if curr >= 0 {
        ix, l := curr, left;
        if after {
          ix, l := ix + 1, l - 1;
        }
      }
      ghost var s := buf[..entries];
      curr := ix;
      if l >= 0 {
        OpenGap(ix);
      }
      left := l + 1;
      entries := entries + 1;
      DecodedGap(s, buf[..entries], ix, e);
      err := Replace(e);
    }

    /** `ext2fs_extent_fix_parents`: in a single node it only goes back to where the extent begins. */
    method FixParents() returns (err: Error)
      requires Valid()
      modifies this`left, this`curr
      ensures Valid()
      ensures old(curr) == -1 ==> err == NoCurrentNode && curr == -1
      ensures old(curr) != -1 ==>
                var s := Extents(); var (found, i) := GotoFrom(s, s[old(curr)].lblk, 0);
                curr == i && err == if found then Ok else NotFound
    {
      if curr == -1 {
        return NoCurrentNode;
      }
      var e;
      err, e := Get(Current);
      err := Goto(e.lblk);
    }

    // ----- ext2fs_extent_set_bmap -----

    /** The first part: find l, and look at the extents around the place. */
    method Survey(l: nat) returns (mapped: bool, e: Extent, hasNext: bool, next: Extent, hasPrev: bool, prev: Extent)
      requires Valid() && entries > 0
      modifies this`left, this`curr
      ensures Valid() && 0 <= curr < entries
      ensures (mapped, curr as nat) == GotoFrom(Extents(), l, 0)
      ensures e == Extents()[curr]
      ensures hasNext == (curr + 1 < entries) && (hasNext ==> next == Extents()[curr + 1])
      ensures hasPrev == (curr > 0) && (hasPrev ==> prev == Extents()[curr - 1])
    {
      var err := Goto(l);
      mapped := err == Ok;
      err, e := Get(Current);
      err, next := Get(NextLeaf);
      hasNext := err == Ok;
      err := Goto(l);
      err, prev := Get(PrevLeaf);
      hasPrev := err == Ok;
      err := Goto(l);
    }

    /** Goes on to the next extent and lets it begin one block earlier. */
    method GrowNext(ghost next: Extent) returns (err: Error)
      requires Valid() && curr + 1 < entries && next == Extents()[curr + 1]
      requires next.lblk > 0 && next.pblk > 0 && next.len + 1 <= MaxLen(next.uninit)
      modifies this`left, this`curr, buf
      ensures Valid() && err == Ok && curr == old(curr) + 1
      ensures Extents() == old(Extents())[curr := GrownLeft(next)]
    {
      var n;
      err, n := Get(NextLeaf);
      err := Replace(GrownLeft(n));
    }

    /** The five ways to map a block in a hole. */
    method PlaceInHole(l: nat, p: nat, u: bool, e: Extent, hasNext: bool, next: Extent) returns (err: Error)
      requires Valid() && 0 <= curr < entries
      requires e == Extents()[curr]
      requires hasNext == (curr + 1 < entries) && (hasNext ==> next == Extents()[curr + 1])
      modifies this`entries, this`left, this`curr, buf
      ensures Valid() && curr != -1
      ensures Fits(err, old(Extents()), Extents(), MapHole(old(Extents()), old(curr), l, p, u), buf.Length)
    {
      if JoinsRight(e, l, p, u) {
        err := ReplaceFits(GrownRight(e));
      } else if JoinsLeft(e, l, p, u) {
        err := ReplaceFits(GrownLeft(e));
      } else {
        err := PlaceBeside(l, p, u, e, hasNext, next);
      }
    }

    /** The three of them that leave the current extent as it is. */
    method PlaceBeside(l: nat, p: nat, u: bool, e: Extent, hasNext: bool, next: Extent) returns (err: Error)
      requires Valid() && 0 <= curr < entries
      requires e == Extents()[curr] && !JoinsRight(e, l, p, u) && !JoinsLeft(e, l, p, u)
      requires hasNext == (curr + 1 < entries) && (hasNext ==> next == Extents()[curr + 1])
      modifies this`entries, this`left, this`curr, buf
      ensures Valid() && curr != -1
      ensures Fits(err, old(Extents()), Extents(), MapHole(old(Extents()), old(curr), l, p, u), buf.Length)
    {
      if hasNext && JoinsLeft(next, l, p, u) {
        SpliceOne(Extents(), curr + 1, GrownLeft(next));
        err := GrowNext(next);
      } else {
        err := InsertInHole(l, p, u, e);
      }
    }

    /** The current extent is written over; that always fits. */
    method ReplaceFits(e: Extent) returns (err: Error)
      requires Valid() && 0 <= curr < entries && 0 < e.len <= MaxLen(e.uninit)
      modifies buf
      ensures Valid()
      ensures Fits(err, old(Extents()), Extents(), Splice(old(Extents()), curr, curr + 1, [e]), buf.Length)
    {
      SpliceOne(Extents(), curr, e);
      err := Replace(e);
    }

    /** A new extent of one block, before or behind the current one. */
    method InsertInHole(l: nat, p: nat, u: bool, e: Extent) returns (err: Error)
      requires Valid() && 0 <= curr < entries && e == Extents()[curr]
      modifies this`entries, this`left, this`curr, buf
      ensures Valid() && curr != -1
      ensures var i: nat := old(curr) + if l < e.lblk then 0 else 1;
              Fits(err, old(Extents()), Extents(), Splice(old(Extents()), i, i, [Extent(l, p, 1, u)]), buf.Length)
    {
      if l < e.lblk {
        err := Insert(false, Extent(l, p, 1, u));
      } else {
        err := Insert(true, Extent(l, p, 1, u));
      }
    }

    /** `mapping unmapped logical block`. */
    method SetHole(l: nat, p: nat, u: bool, e: Extent, hasNext: bool, next: Extent) returns (err: Error)
      requires Valid() && 0 <= curr < entries
      requires WellFormed(Extents()) && l < LBLK_LIMIT && 0 < p < PBLK_LIMIT
      requires (false, curr as nat) == GotoFrom(Extents(), l, 0)
      requires e == Extents()[curr]
      requires hasNext == (curr + 1 < entries) && (hasNext ==> next == Extents()[curr + 1])
      modifies this`entries, this`left, this`curr, buf
      ensures Valid()
      ensures Fits(err, old(Extents()), Extents(), MapHole(old(Extents()), old(curr), l, p, u), buf.Length)
    {
      HoleGoal(Extents(), l, p, u);
      err := PlaceInHole(l, p, u, e, hasNext, next);
      if err != Ok {
        return;
      }
      GotoStart(Extents(), curr);
      err := FixParents();
    }

    /**
     Maps the last block l of the extent at the cursor a second time, in the next extent or in a new
     one behind it, and goes back to the extent it overlaps.
     */
    method OverlapRight(l: nat, p: nat, u: bool, hasNext: bool, next: Extent) returns (err: Error)
      requires Valid() && 0 <= curr < entries
      requires WellFormed(Extents()) && Extents()[curr].Contains(l)
      requires hasNext == (curr + 1 < entries) && (hasNext ==> next == Extents()[curr + 1])
      modifies this`entries, this`left, this`curr, buf
      ensures Valid() && curr == old(curr)
      ensures Fits(err, old(Extents()), Extents(), OverlappedRight(old(Extents()), old(curr), l, p, u), buf.Length)
    {
      ghost var s, i := Extents(), curr as nat;
      if hasNext && JoinsLeft(next, l, p, u) {
        err := GrowNext(next);
      } else {
        err := Insert(true, Extent(l, p, 1, u));
      }
      if err != Ok {
        return;
      }
      OverlapRightGoto(s, i, l, p, u);
      err := FixParents();
      err := Goto(l);
    }

    /** `(re/un)mapping last block in extent`. */
    method SetLast(l: nat, p: nat, u: bool, extent: Extent, hasNext: bool, next: Extent) returns (err: Error)
      requires Valid() && 0 <= curr < entries
      requires WellFormed(Extents())
      requires extent == Extents()[curr] && extent.len > 1 && l == extent.End() - 1
      requires hasNext == (curr + 1 < entries) && (hasNext ==> next == Extents()[curr + 1])
      modifies this`entries, this`left, this`curr, buf
      ensures Valid()
      ensures Fits(err, old(Extents()), Extents(), RemapLast(old(Extents()), old(curr), l, p, u), buf.Length)
    {
      ghost var s, i := Extents(), curr as nat;
      OverlapRightCut(s, i, l, p, u);
      var e := extent;
      if p != 0 {
        err := OverlapRight(l, p, u, hasNext, next);
        if err != Ok {
          return;
        }
        err, e := Get(Current);
      }
      err := Replace(CutRight(e));
    }

    /** Maps l in the previous extent or in a new one before the cursor, and leaves the cursor there. */
    method DoubleLeft(l: nat, p: nat, u: bool, hasPrev: bool, prev: Extent) returns (err: Error)
      requires Valid() && 0 <= curr < entries
      requires hasPrev == (curr > 0) && (hasPrev ==> prev == Extents()[curr - 1])
      modifies this`entries, this`left, this`curr, buf
      ensures Valid()
      ensures Fits(err, old(Extents()), Extents(), OverlappedLeft(old(Extents()), old(curr), l, p, u), buf.Length)
      ensures err == Ok ==> curr == if entries == old(entries) then old(curr) - 1 else old(curr)
    {
      if hasPrev && JoinsRight(prev, l, p, u) {
        var e;
        err, e := Get(PrevLeaf);
        err := Replace(GrownRight(e));
      } else {
        err := Insert(false, Extent(l, p, 1, u));
      }
    }

    /** The same at the left end: the first block of the extent at the cursor is mapped a second time before it. */
    method OverlapLeft(l: nat, p: nat, u: bool, hasPrev: bool, prev: Extent) returns (err: Error, e: Extent)
      requires Valid() && 0 <= curr < entries
      requires WellFormed(Extents()) && l == Extents()[curr].lblk
      requires hasPrev == (curr > 0) && (hasPrev ==> prev == Extents()[curr - 1])
      modifies this`entries, this`left, this`curr, buf
      ensures Valid()
      ensures Fits(err, old(Extents()), Extents(), OverlappedLeft(old(Extents()), old(curr), l, p, u), buf.Length)
      ensures err == Ok ==> e == old(Extents()[curr])
      ensures err == Ok ==> curr == if entries == old(entries) then old(curr) else old(curr) + 1
    {
      ghost var s, i := Extents(), curr as nat;
      OverlapLeftGoto(s, i, l, p, u);
      err := DoubleLeft(l, p, u, hasPrev, prev);
      if err != Ok {
        return err, prev;
      }
      err := FixParents();
      err, e := Get(NextLeaf);
    }

    /** `(re/un)mapping first block in extent`. */
    method SetFirst(l: nat, p: nat, u: bool, extent: Extent, hasPrev: bool, prev: Extent) returns (err: Error)
      requires Valid() && 0 <= curr < entries
      requires WellFormed(Extents())
      requires extent == Extents()[curr] && extent.len > 1 && l == extent.lblk && p < PBLK_LIMIT
      requires hasPrev == (curr > 0) && (hasPrev ==> prev == Extents()[curr - 1])
      modifies this`entries, this`left, this`curr, buf
      ensures Valid()
      ensures Fits(err, old(Extents()), Extents(), RemapFirst(old(Extents()), old(curr), l, p, u), buf.Length)
    {
      ghost var s, i := Extents(), curr as nat;
      OverlapLeftCut(s, i, l, p, u);
      FirstGoal(s, i, l, p, u);
      var e := extent;
      if p != 0 {
        err, e := OverlapLeft(l, p, u, hasPrev, prev);
        if err != Ok {
          return;
        }
      }
      err := Replace(CutLeft(e));
      assert Extents() == RemapFirst(s, i, l, p, u);
      GotoStart(Extents(), curr);
      err := FixParents();
    }

    /** Undoes the shortening of an extent after a failed insertion. */
    method RollBack(ghost s: seq<Extent>, ghost i: nat, saved: Extent)
      requires Valid()
      requires WellFormed(s) && i < |s| && saved == s[i]
      requires i < entries && Extents()[..i] == s[..i]
      requires Extents()[i].lblk == saved.lblk && Extents()[i].len > 0
      modifies this`left, this`curr, buf
      ensures Valid()
      ensures Extents() == old(Extents())[i := saved]
    {
      GotoShared(s, Extents(), i);
      var r2 := Goto(saved.lblk);
      if r2 == Ok {
        var _ := Replace(saved);
      }
    }

    /** `insert our new extent, if any`; the extent at i has been cut short already. */
    method InsertMiddle(l: nat, p: nat, u: bool, ghost s: seq<Extent>, ghost i: nat, extent: Extent) returns (err: Error)
      requires Valid() && curr == i
      requires WellFormed(s) && i < |s| && extent == s[i] && extent.lblk < l < extent.End() - 1
      requires Extents() == Shortened(s, i, l)
      modifies this`entries, this`left, this`curr, buf
      ensures Valid()
      ensures Fits(err, s, Extents(), WithMiddle(s, i, l, p, u), buf.Length)
      ensures err == Ok ==> curr == if p == 0 then i else i + 1
    {
      if p == 0 {
        return Ok;
      }
      err := Insert(true, Extent(l, p, 1, u));
      if err != Ok {
        RollBack(s, i, extent);
      }
    }

    /** `add post-split extent`. */
    method InsertRest(l: nat, p: nat, u: bool, ghost s: seq<Extent>, ghost i: nat, extent: Extent) returns (err: Error)
      requires Valid() && curr == if p == 0 then i else i + 1
      requires WellFormed(s) && i < |s| && extent == s[i] && extent.lblk < l < extent.End() - 1
      requires Extents() == WithMiddle(s, i, l, p, u)
      modifies this`entries, this`left, this`curr, buf
      ensures Valid()
      ensures Fits(err, s, Extents(), RemapMiddle(s, i, l, p, u), buf.Length)
    {
      MiddleLists(s, i, l, p, u);
      err := Insert(true, After(extent, l));
      if err != Ok {
        UndoMiddle(l, p, u, s, i);
        RollBack(s, i, extent);
      }
    }

    /** Takes the new extent out again, if there is one. */
    method UndoMiddle(l: nat, p: nat, u: bool, ghost s: seq<Extent>, ghost i: nat)
      requires Valid()
      requires WellFormed(s) && i < |s| && s[i].lblk < l < s[i].End() - 1
      requires Extents() == WithMiddle(s, i, l, p, u)
      modifies this`entries, this`left, this`curr, buf
      ensures Valid() && Extents() == Shortened(s, i, l)
    {
      MiddleLists(s, i, l, p, u);
      if p != 0 {
        GotoSplit(s, Extents(), i, l);
        var r2 := Goto(l);
        if r2 == Ok {
          var _ := Delete();
        }
      }
    }

    /** `(re/un)mapping in middle of extent`, with the two rollbacks. */
    method SetMiddle(l: nat, p: nat, u: bool, extent: Extent) returns (err: Error)
      requires Valid() && 0 <= curr < entries
      requires WellFormed(Extents())
      requires extent == Extents()[curr] && extent.lblk < l < extent.End() - 1
      modifies this`entries, this`left, this`curr, buf
      ensures Valid()
      ensures Fits(err, old(Extents()), Extents(), RemapMiddle(old(Extents()), old(curr), l, p, u), buf.Length)
    {
      ghost var s, i := Extents(), curr as nat;
      err := Replace(Before(extent, l));
      err := InsertMiddle(l, p, u, s, i, extent);
      if err != Ok {
        return;
      }
      err := InsertRest(l, p, u, s, i, extent);
    }

    /** `(re/un)mapping only block in extent`. */
    method SetOnly(l: nat, p: nat, u: bool) returns (err: Error)
      requires Valid() && 0 <= curr < entries
      modifies this`entries, this`left, this`curr, buf
      ensures Valid() && err == Ok
      ensures Extents() == Splice(old(Extents()), old(curr), old(curr) + 1, if p == 0 then [] else [Extent(l, p, 1, u)])
    {
      ghost var s, i := Extents(), curr;
      if p != 0 {
        SpliceOne(s, i, Extent(l, p, 1, u));
        err := Replace(Extent(l, p, 1, u));
      } else {
        err := Delete();
        assert Extents() == Splice(s, i, i + 1, []);
        var _ := FixParents();
      }
    }

    /** The branches for a block that is in the extent e at the cursor. */
    method SetMapped(l: nat, p: nat, u: bool, e: Extent, hasNext: bool, next: Extent, hasPrev: bool, prev: Extent)
      returns (err: Error)
      requires Valid() && 0 <= curr < entries
      requires WellFormed(Extents()) && p < PBLK_LIMIT
      requires (true, curr as nat) == GotoFrom(Extents(), l, 0)
      requires e == Extents()[curr]
      requires hasNext == (curr + 1 < entries) && (hasNext ==> next == Extents()[curr + 1])
      requires hasPrev == (curr > 0) && (hasPrev ==> prev == Extents()[curr - 1])
      modifies this`entries, this`left, this`curr, buf
      ensures Valid()
      ensures Fits(err, old(Extents()), Extents(), ExtentList.SetBmap(old(Extents()), l, p, u), buf.Length)
    {
      if e.uninit == u && e.pblk + (l - e.lblk) == p {
        err := Ok;
      } else if e.len == 1 {
        err := SetOnly(l, p, u);
      } else if l == e.End() - 1 {
        err := SetLast(l, p, u, e, hasNext, next);
      } else if l == e.lblk {
        err := SetFirst(l, p, u, e, hasPrev, prev);
      } else {
        err := SetMiddle(l, p, u, e);
      }
    }

    /** The body of `ext2fs_extent_set_bmap` once there is a current node. */
    method SetAround(l: nat, p: nat, u: bool) returns (err: Error)
      requires Valid() && entries > 0
      requires WellFormed(Extents()) && l < LBLK_LIMIT && p < PBLK_LIMIT
      modifies this`entries, this`left, this`curr, buf
      ensures Valid()
      ensures Fits(err, old(Extents()), Extents(), ExtentList.SetBmap(old(Extents()), l, p, u), buf.Length)
    {
      var mapped, e, hasNext, next, hasPrev, prev := Survey(l);
      if mapped {
        err := SetMapped(l, p, u, e, hasNext, next, hasPrev, prev);
      } else if p != 0 {
        err := SetHole(l, p, u, e, hasNext, next);
      } else {
        err := Ok;
      }
    }

    /**
     `ext2fs_extent_set_bmap`: maps l to p, or unmaps it when p is 0. It succeeds exactly when the
     resulting list fits in the node, and otherwise leaves the list as it was.
     */
    method SetBmap(l: nat, p: nat, u: bool) returns (err: Error)
      requires Valid()
      requires WellFormed(Extents()) && l < LBLK_LIMIT && p < PBLK_LIMIT
      requires entries == 0 ==> p != 0
      modifies this`entries, this`left, this`curr, buf
      ensures Valid()
      ensures Fits(err, old(Extents()), Extents(), ExtentList.SetBmap(old(Extents()), l, p, u), buf.Length)
    {
      if entries == 0 {
        err := Insert(false, Extent(l, p, 1, u));
        return;
      }
      var orig;
      err, orig := Get(Current);
      var origLblk := if err == Ok then orig.lblk else 0;
      err := SetAround(l, p, u);
      // Get the handle back to its position.
      var _ := Goto(origLblk);
    }

    /**
     The promise in one place: on success the map has changed at l and nowhere else, with as many extents as that takes;
     it is refused exactly if those are too many for the node.
     */
    method SetBmapChecked(l: nat, p: nat, u: bool) returns (err: Error)
      requires Valid()
      requires WellFormed(Extents()) && l < LBLK_LIMIT && p < PBLK_LIMIT
      requires entries == 0 ==> p != 0
      modifies this`entries, this`left, this`curr, buf
      ensures Valid() && WellFormed(Extents())
      ensures err == Ok ==> ChangesOnly(old(Extents()), Extents(), l, Wanted(p, u))
      ensures err != Ok ==> err == NoSpace && Extents() == old(Extents())
      ensures err == Ok ==> Counted(old(Extents()), |Extents()|, l, p, u)
      ensures err != Ok ==> forall n: nat :: Counted(old(Extents()), n, l, p, u) ==> n > buf.Length
      ensures old(entries) + 2 <= buf.Length ==> err == Ok
    {
      ghost var s := Extents();
      SetBmapCounted(s, l, p, u);
      forall n: nat | Counted(s, n, l, p, u) ensures n == |ExtentList.SetBmap(s, l, p, u)| {
        CountedOnce(s, n, |ExtentList.SetBmap(s, l, p, u)|, l, p, u);
      }
      SetBmapGoal(Extents(), l, p, u);
      SetBmapGrowth(Extents(), l, p, u);
      err := SetBmap(l, p, u);
    }
  }

  /** The outcome of an update that means to leave t behind: it does, or there is no room and nothing changes. */
  ghost predicate Fits(err: Error, s: seq<Extent>, s': seq<Extent>, t: seq<Extent>, capacity: nat) {
    if |t| <= capacity then err == Ok && s' == t else err == NoSpace && s' == s
  }

  /** In a well-formed list every extent is found at its first block. */
  lemma GotoStart(s: seq<Extent>, i: nat)
    requires WellFormed(s) && i < |s|
    ensures GotoFrom(s, s[i].lblk, 0) == (true, i)
  {
    GotoFinds(s, s[i].lblk, i);
  }

  /** The search does not look past the extent it finds. */
  lemma GotoPrefix(s: seq<Extent>, t: seq<Extent>, i: nat, l: nat)
    requires WellFormed(s) && i < |s| && s[i].Contains(l)
    requires i < |t| && t[..i + 1] == s[..i + 1]
    ensures GotoFrom(t, l, 0) == (true, i)
  {
    assert forall m :: 0 <= m <= i ==> t[m] == t[..i + 1][m] == s[m];
    GotoFinds(t, l, i);
  }

  /** Nor does it mind what the extent it finds has become, if it still begins at the same block. */
  lemma GotoShared(s: seq<Extent>, t: seq<Extent>, i: nat)
    requires WellFormed(s) && i < |s|
    requires i < |t| && t[..i] == s[..i] && t[i].lblk == s[i].lblk && t[i].len > 0
    ensures GotoFrom(t, s[i].lblk, 0) == (true, i)
  {
    assert forall m :: 0 <= m < i ==> t[m] == t[..i][m] == s[m];
    GotoFinds(t, s[i].lblk, i);
  }

  /** After the extent at i is cut short at l, the search for l finds what follows it. */
  lemma GotoSplit(s: seq<Extent>, t: seq<Extent>, i: nat, l: nat)
    requires WellFormed(s) && i < |s| && s[i].lblk <= l
    requires i + 1 < |t| && t[..i] == s[..i] && t[i].End() == l && t[i + 1].Contains(l)
    ensures GotoFrom(t, l, 0) == (true, i + 1)
  {
    assert forall m :: 0 <= m < i ==> t[m] == t[..i][m] == s[m];
    GotoFinds(t, l, i + 1);
  }

  /** The list while two extents map l: s[i] and what follows it. */
  ghost function OverlappedRight(s: seq<Extent>, i: nat, l: nat, p: nat, u: bool): (t: seq<Extent>)
    requires i < |s|
  {
    if i + 1 < |s| && JoinsLeft(s[i + 1], l, p, u) then s[i + 1 := GrownLeft(s[i + 1])]
    else Splice(s, i + 1, i + 1, [Extent(l, p, 1, u)])
  }

  lemma OverlapRightGoto(s: seq<Extent>, i: nat, l: nat, p: nat, u: bool)
    requires WellFormed(s) && i < |s| && s[i].Contains(l)
    ensures var t := OverlappedRight(s, i, l, p, u);
            i + 1 < |t| && t[i + 1].lblk == l && GotoFrom(t, l, 0) == (true, i) && t[i] == s[i]
  {
    GotoPrefix(s, OverlappedRight(s, i, l, p, u), i, l);
  }

  lemma OverlapRightCut(s: seq<Extent>, i: nat, l: nat, p: nat, u: bool)
    requires i < |s| && s[i].len > 0
    ensures var t := if p == 0 then s else OverlappedRight(s, i, l, p, u);
            i < |t| && t[i] == s[i] && t[i := CutRight(s[i])] == RemapLast(s, i, l, p, u)
  {
  }

  /** The list while s[i] and what comes before it both map l. */
  ghost function OverlappedLeft(s: seq<Extent>, i: nat, l: nat, p: nat, u: bool): (t: seq<Extent>)
    requires i < |s|
  {
    if i > 0 && JoinsRight(s[i - 1], l, p, u) then s[i - 1 := GrownRight(s[i - 1])]
    else Splice(s, i, i, [Extent(l, p, 1, u)])
  }

  /** j is where the extent that maps l anew now is. */
  lemma OverlapLeftGoto(s: seq<Extent>, i: nat, l: nat, p: nat, u: bool)
    requires WellFormed(s) && i < |s| && l == s[i].lblk
    ensures var t := OverlappedLeft(s, i, l, p, u);
            var j := if |t| == |s| then i - 1 else i;
            && |s| <= |t| && 0 <= j && j + 1 < |t| && t[j + 1] == s[i]
            && GotoFrom(t, t[j].lblk, 0) == (true, j)
  {
    var t := OverlappedLeft(s, i, l, p, u);
    var j := if |t| == |s| then i - 1 else i;
    GotoShared(s, t, j);
  }

  lemma OverlapLeftCut(s: seq<Extent>, i: nat, l: nat, p: nat, u: bool)
    requires i < |s| && s[i].len > 0
    ensures var t := if p == 0 then s else OverlappedLeft(s, i, l, p, u);
            var j := if |t| == |s| then i else i + 1;
            j < |t| && t[j] == s[i] && t[j := CutLeft(s[i])] == RemapFirst(s, i, l, p, u)
  {
    if p == 0 {
      assert s[i := CutLeft(s[i])] == Splice(s, i, i + 1, [CutLeft(s[i])]);
    } else if i > 0 && JoinsRight(s[i - 1], l, p, u) {
      assert s[i - 1 := GrownRight(s[i - 1])][i := CutLeft(s[i])]
          == Splice(s, i - 1, i + 1, [GrownRight(s[i - 1]), CutLeft(s[i])]);
    } else {
      assert Splice(s, i, i, [Extent(l, p, 1, u)])[i + 1 := CutLeft(s[i])]
          == Splice(s, i, i + 1, [Extent(l, p, 1, u), CutLeft(s[i])]);
    }
  }

  /** The steps of a remapping in the middle of s[i]. */
  ghost function Shortened(s: seq<Extent>, i: nat, l: nat): (t: seq<Extent>)
    requires i < |s| && s[i].Contains(l)
  {
    s[i := Before(s[i], l)]
  }

  ghost function WithMiddle(s: seq<Extent>, i: nat, l: nat, p: nat, u: bool): (t: seq<Extent>)
    requires i < |s| && s[i].Contains(l)
  {
    if p == 0 then Shortened(s, i, l) else Splice(Shortened(s, i, l), i + 1, i + 1, [Extent(l, p, 1, u)])
  }

  lemma MiddleLists(s: seq<Extent>, i: nat, l: nat, p: nat, u: bool)
    requires i < |s| && s[i].Contains(l)
    ensures var t := WithMiddle(s, i, l, p, u); var j := if p == 0 then i + 1 else i + 2;
            && j <= |t| && Splice(t, j, j, [After(s[i], l)]) == RemapMiddle(s, i, l, p, u)
            && (p != 0 ==> t[..i + 1] + t[i + 2..] == Shortened(s, i, l))
    ensures Shortened(s, i, l)[i := s[i]] == s
  {
    var x, y, z := Before(s[i], l), Extent(l, p, 1, u), After(s[i], l);
    var s1 := s[i := x];
    if p == 0 {
      assert Splice(s1, i + 1, i + 1, [z]) == Splice(s, i, i + 1, [x] + [] + [z]);
    } else {
      var t := Splice(s1, i + 1, i + 1, [y]);
      assert t[..i + 1] == s1[..i + 1] && t[i + 2..] == s1[i + 1..];
      assert Splice(t, i + 2, i + 2, [z]) == Splice(s, i, i + 1, [x] + [y] + [z]);
    }
  }

  lemma SpliceOne(s: seq<Extent>, i: nat, e: Extent)
    requires i < |s|
    ensures s[i := e] == Splice(s, i, i + 1, [e])
  {
  }

  lemma DecodedSplit(s: seq<Rec>, t: seq<Rec>, c: nat)
    requires c < |s| == |t| + 1
    requires forall k :: 0 <= k < |t| ==> t[k] == s[if k < c then k else k + 1]
    ensures Decoded(t) == Decoded(s)[..c] + Decoded(s)[c + 1..]
  {
  }

  lemma DecodedGap(s: seq<Rec>, t: seq<Rec>, ix: nat, e: Extent)
    requires ix <= |s| && |t| == |s| + 1
    requires forall k :: 0 <= k < |t| && k != ix ==> t[k] == s[if k < ix then k else k - 1]
    ensures Decoded(t)[ix := e] == Splice(Decoded(s), ix, ix, [e])
  {
  }
}
