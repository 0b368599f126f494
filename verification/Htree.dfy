/**
 Model of the index of a hashed directory in libext2fs/link.c: looking a hash up, inserting an entry into an index
 block, and growing the tree by splitting an index block or adding a level.
 */
module Htree {
  import opened Bytes
  import opened HashSpans
  import opened HashTree

  ghost predicate EntriesInOrder(entries: seq<Entry>) {
    forall i, j :: 0 < i < j < |entries| ==> entries[i].hash <= entries[j].hash
  }

  /** The last entry, but for the first, whose hash is at most the one looked for; or the first. */
  ghost predicate IsLast(entries: seq<Entry>, hash: nat, at: nat) {
    at < |entries| && (at > 0 ==> entries[at].hash <= hash) && forall j :: at < j < |entries| ==> hash < entries[j].hash
  }

  /** `dx_search_entry`: a binary search. */
  method SearchEntry(entries: seq<Entry>, hash: nat) returns (at: nat)
    requires entries != []
    ensures at < |entries|
    ensures EntriesInOrder(entries) ==> IsLast(entries, hash, at)
  {
    var p, q := 1, |entries| - 1;
    while p <= q
      invariant 1 <= p <= q + 1 <= |entries|
      invariant EntriesInOrder(entries) ==> (p > 1 ==> entries[p - 1].hash <= hash)
      invariant EntriesInOrder(entries) ==> forall j :: q < j < |entries| ==> hash < entries[j].hash
    {
      var m := p + (q - p) / 2;
      if entries[m].hash > hash {
        q := m - 1;
      } else {
        p := m + 1;
      }
    }
    at := p - 1;
  }

  /** `struct dx_frame`. */
  datatype Frame = Frame(block: nat, node: Node, at: nat)

  datatype Error = Ok | Corrupted

  /** What a growth of the tree came to: no level could be added, there is room for one more leaf, or the tree has grown. */
  datatype Growth = NoLevel | LeafRoom(block: nat) | Taller

  /** The frame is that of the block l levels down that the hash leads to. */
  ghost predicate FrameIs(f: Frame, nodes: map<nat, Node>, t: Tree, d: nat, h: nat, l: nat)
    requires Shape(t, d) && l < d
  {
    var s := Sub(t, d, h, l);
    f.block == s.block && f.block in nodes && f.node == nodes[f.block] && NodeIs(f.node, s) && f.at == At(s.keys, h)
  }

  ghost predicate FramesAre(frames: seq<Frame>, nodes: map<nat, Node>, t: Tree, d: nat, h: nat)
    requires Shape(t, d)
  {
    |frames| <= d && forall l :: 0 <= l < |frames| ==> FrameIs(frames[l], nodes, t, d, h, l)
  }

  predicate HasRoom(n: Node) {
    |n.entries| < n.limit
  }

  /** The index block l levels down that the hash leads to can take one more entry. */
  ghost predicate RoomAt(nodes: map<nat, Node>, t: Tree, d: nat, h: nat, l: nat)
    requires Shape(t, d) && l < d
  {
    var b := Sub(t, d, h, l).block;
    b in nodes && HasRoom(nodes[b])
  }

  ghost predicate Limits(nodes: map<nat, Node>, limit: nat) {
    forall b :: b in nodes ==> 2 <= nodes[b].limit <= limit
  }

  lemma {:induction false} RouteIsLast(t: Tree, d: nat, h: nat)
    requires Shape(t, d)
    ensures Route(t, d, h) == Sub(t, d, h, d).block
  {
    RouteIsSub(t, d, h, d);
  }

  /** Searching the entries of a block is searching its keys. */
  lemma LastIsAt(n: Node, s: Tree, h: nat, at: nat)
    requires NodeIs(n, s) && s.keys != [] && IsLast(n.entries, h, at)
    ensures At(s.keys, h) == at
  {
    AtIs(s.keys, h, at);
  }

  lemma NodeInOrder(n: Node, s: Tree, lo: nat, hi: nat)
    requires NodeIs(n, s) && Ordered(s, lo, hi)
    ensures EntriesInOrder(n.entries)
  {
  }

  /** The root holds less than other blocks. */
  ghost predicate RootLimit(nodes: map<nat, Node>, limit: nat) {
    0 in nodes && nodes[0].limit < limit
  }

  class Index {
    /** `ext2_dir_htree_level`, and how many entries fit in a block that is not the root. */
    const maxLevels: nat
    const nodeLimit: nat

    /** The index blocks by number; `indirect_levels` of the root plus one; and the size of the directory in blocks. */
    var nodes: map<nat, Node>
    var levels: nat
    var size: nat

    ghost var tree: Tree

    ghost predicate Valid()
      reads this
    {
      1 <= levels <= maxLevels && IsIndex(nodes, tree, levels, size) && size <= BLOCKS && Limits(nodes, nodeLimit) && RootLimit(nodes, nodeLimit)
    }

    /** One turn of the loop of `dx_lookup`. */
    method LookupLevel(hash: nat, block: nat, ghost l: nat) returns (err: Error, f: Frame)
      ensures err == Ok || err == Corrupted
      ensures err == Ok ==> f.at < |f.node.entries|
      ensures Valid() && l < levels && hash < U32 && block == Sub(tree, levels, hash, l).block ==>
                err == Ok && FrameIs(f, nodes, tree, levels, hash, l)
    {
      f := Frame(block, Node(0, []), 0);
      if Valid() && l < levels && hash < U32 {
        SubStores(nodes, tree, levels, hash, l);
        SubOrdered(tree, levels, hash, l, 0, U32);
      }
      if block !in nodes {
        return Corrupted, f;
      }
      var n := nodes[block];
      if n.entries == [] || |n.entries| > n.limit {
        return Corrupted, f;
      }
      var at := SearchEntry(n.entries, hash);
      err, f := Ok, Frame(block, n, at);
      if Valid() && l < levels && hash < U32 && block == Sub(tree, levels, hash, l).block {
        var s := Sub(tree, levels, hash, l);
        NodeInOrder(n, s, Lo(tree, levels, hash, l, 0), Hi(tree, levels, hash, l, U32));
        LastIsAt(n, s, hash, at);
      }
    }

    /** `dx_lookup`, from the root down: one frame for each level. */
    method Lookup(hash: nat) returns (err: Error, frames: seq<Frame>)
      ensures Valid() && hash < U32 ==> err == Ok && |frames| == levels && FramesAre(frames, nodes, tree, levels, hash)
      ensures Valid() && hash < U32 ==>
                var f := frames[levels - 1]; Block(f.node.entries[f.at]) == Route(tree, levels, hash)
    {
      frames := [];
      err := Ok;
      var block := 0;
      if levels > maxLevels {
        return Corrupted, frames;
      }
      for l := 0 to levels
        invariant |frames| == l
        invariant Valid() && hash < U32 ==> FramesAre(frames, nodes, tree, levels, hash)
        invariant Valid() && hash < U32 ==> block == Sub(tree, levels, hash, l).block
        invariant l > 0 ==> frames[l - 1].at < |frames[l - 1].node.entries| && block == Block(frames[l - 1].node.entries[frames[l - 1].at])
      {
        var f;
        err, f := LookupLevel(hash, block, l);
        if err != Ok {
          return;
        }
        if Valid() && hash < U32 {
          SubStep(tree, levels, hash, l);
        }
        frames := frames + [f];
        block := Block(f.node.entries[f.at]);
      }
      err := Ok;
      if Valid() && hash < U32 {
        RouteIsLast(tree, levels, hash);
      }
    }

    /** `dx_insert_entry`: behind the entry that was followed comes a new one. */
    method InsertEntry(f: Frame, hash: nat, block: nat)
      requires f.at < |f.node.entries|
      modifies `nodes
      ensures nodes == old(nodes)[f.block := InsertedNode(f.node, f.at, Entry(hash, block))]
    {
      nodes := nodes[f.block := InsertedNode(f.node, f.at, Entry(hash, block))];
    }

    /** Growing the depth: the entries of the root move to a new block, to which the root leads. */
    method Deepen(f: Frame, block: nat, ghost hash: nat)
      requires Valid() && hash < U32 && FrameIs(f, nodes, tree, levels, hash, 0) && levels < maxLevels && block + 1 == size
      requires !On(tree, block)
      modifies `nodes, `levels, `tree
      ensures Valid() && levels == old(levels) + 1
      ensures SameRoutes(old(tree), old(levels), tree, levels) && SameLeaves(old(tree), old(levels), tree, levels)
      ensures RoomAt(nodes, tree, levels, hash, 1) && Moved(nodes, f, block)
    {
      ghost var m, t := nodes, tree;
      var root := Node(f.node.limit, [Entry(f.node.entries[0].hash, block)]);
      nodes := nodes[block := Node(nodeLimit, f.node.entries)][f.block := root];
      levels := levels + 1;
      tree := Deeper(t, block);
      DeeperWhole(m, nodes, t, old(levels), hash, f, block, nodeLimit, tree);
    }

    method MoveHalf(f: Frame, x: Frame, c: nat, block: nat)
      requires f.at < |f.node.entries| && c < |x.node.entries|
      modifies `nodes
      ensures nodes == SplitMap(old(nodes), f, x, c, block, nodeLimit)
    {
      InsertEntry(f, x.node.entries[c].hash, block);
      nodes := nodes[x.block := Node(x.node.limit, x.node.entries[..c])][block := Node(nodeLimit, x.node.entries[c..])];
    }

    /** Splitting the full block of the second frame: half of its entries move to a new block. */
    method SplitBlock(f: Frame, x: Frame, block: nat, ghost i: nat, ghost hash: nat)
      requires Valid() && hash < U32 && i + 1 < levels && FrameIs(f, nodes, tree, levels, hash, i)
      requires FrameIs(x, nodes, tree, levels, hash, i + 1) && HasRoom(f.node) && !HasRoom(x.node)
      requires block + 1 == size && !On(tree, block)
      modifies `nodes, `tree
      ensures Valid() && RoomAt(nodes, tree, levels, hash, i + 1)
      ensures SameRoutes(old(tree), levels, tree, levels) && SameLeaves(old(tree), levels, tree, levels)
      ensures Halved(nodes, x, block)
    {
      ghost var m, t := nodes, tree;
      var c := |x.node.entries| / 2;
      SplitFits(m, t, levels, hash, i, x, c, nodeLimit);
      MoveHalf(f, x, c, block);
      tree := SplitAt(t, levels, hash, i, c, block);
      SplitWhole(m, nodes, t, levels, hash, i, f, x, c, block, nodeLimit, tree);
    }

    /**
     `dx_grow_tree` up to the splitting of a leaf: the lowest index block with room is found; if it is the last, there
     is room for a leaf in the new block; else the block below it is split, or a level added.
     */
    method GrowTree(frames: seq<Frame>, ghost hash: nat) returns (g: Growth)
      requires Valid() && hash < U32 && |frames| == levels && FramesAre(frames, nodes, tree, levels, hash) && size < BLOCKS
      modifies `nodes, `levels, `size, `tree
      ensures Valid() && SameRoutes(old(tree), old(levels), tree, levels) && SameLeaves(old(tree), old(levels), tree, levels)
      ensures size == old(size) + if g == NoLevel then 0 else 1
      ensures g == NoLevel <==> Deepest(frames) == -1 && old(levels) == maxLevels
      ensures g.LeafRoom? <==> Deepest(frames) == old(levels) - 1
      ensures g.LeafRoom? ==> g.block == old(size) && !On(tree, g.block)
      ensures g != Taller ==> nodes == old(nodes) && levels == old(levels) && tree == old(tree)
      ensures g == Taller && Deepest(frames) >= 0 ==> levels == old(levels) && RoomAt(nodes, tree, levels, hash, Deepest(frames) + 1)
      ensures g == Taller && Deepest(frames) == -1 ==>
                levels == old(levels) + 1 && RoomAt(nodes, tree, levels, hash, 1)
      ensures g == Taller ==> if Deepest(frames) == -1 then Moved(nodes, frames[0], old(size))
                              else Halved(nodes, frames[Deepest(frames) + 1], old(size))
    {
      var i := FindRoom(frames);
      if i < 0 && levels >= maxLevels {
        return NoLevel;
      }
      var block := size;
      size := size + 1;
      if i == levels - 1 {
        return LeafRoom(block);
      }
      if i < 0 {
        Deepen(frames[0], block, hash);
      } else {
        SplitBlock(frames[i], frames[i + 1], block, i, hash);
      }
      return Taller;
    }

    /**
     The end of `dx_split_leaf`: a new leaf comes behind that of the hash. From its key on it takes over the hashes of
     that leaf.
     */
    method AddLeaf(f: Frame, key: nat, block: nat, ghost hash: nat)
      requires Valid() && hash < U32 && FrameIs(f, nodes, tree, levels, hash, levels - 1) && HasRoom(f.node)
      requires block < size && !On(tree, block)
      requires Lo(tree, levels, hash, levels, 0) <= key <= Hi(tree, levels, hash, levels, U32)
      modifies `nodes, `tree
      ensures Valid() && tree == InsertAt(old(tree), levels, hash, key, block)
      ensures RoutesParted(old(tree), tree, levels, hash, key, block)
    {
      ghost var m, t := nodes, tree;
      InsertEntry(f, key, block);
      tree := InsertAt(t, levels, hash, key, block);
      AddRight(m, nodes, t, levels, hash, f, key, block, size, nodeLimit, tree);
    }
  }

  /** The hashes from the key on that led where h did lead to another leaf now, all others where they did. */
  ghost predicate RoutesParted(t: Tree, t': Tree, d: nat, h: nat, key: nat, block: nat)
    requires Shape(t, d) && Shape(t', d)
  {
    forall g: nat {:trigger Route(t, d, g)} {:trigger Route(t', d, g)} :: g < U32 ==>
      Route(t', d, g) == if Route(t, d, g) == Route(t, d, h) && key <= g then block else Route(t, d, g)
  }

  lemma AddRight(m: map<nat, Node>, n: map<nat, Node>, t: Tree, d: nat, h: nat, f: Frame, key: nat, block: nat, size: nat,
                 limit: nat, t': Tree)
    requires IsIndex(m, t, d, size) && Limits(m, limit) && RootLimit(m, limit) && h < U32 && 0 < d && block < size <= BLOCKS
    requires !On(t, block) && FrameIs(f, m, t, d, h, d - 1) && HasRoom(f.node) && f.at < |f.node.entries|
    requires Lo(t, d, h, d, 0) <= key <= Hi(t, d, h, d, U32)
    requires n == m[f.block := InsertedNode(f.node, f.at, Entry(key, block))] && t' == InsertAt(t, d, h, key, block)
    ensures IsIndex(n, t', d, size) && Limits(n, limit) && RootLimit(n, limit) && RoutesParted(t, t', d, h, key, block)
  {
    InsertAtKeeps(t, d, h, key, block, 0, U32);
    AddStores(m, n, t, d, h, f, key, block);
    forall g: nat | g < U32
      ensures Route(t', d, g) == if Route(t, d, g) == Route(t, d, h) && key <= g then block else Route(t, d, g)
    {
      InsertAtRoute(t, d, h, key, block, 0, U32, g);
      SameLeafIff(t, d, h, 0, U32, g);
    }
  }

  lemma AddStores(m: map<nat, Node>, n: map<nat, Node>, t: Tree, d: nat, h: nat, f: Frame, key: nat, block: nat)
    requires Shape(t, d) && 0 < d && Separate(t) && Stores(m, t) && !On(t, block) && block < BLOCKS
    requires FrameIs(f, m, t, d, h, d - 1) && HasRoom(f.node) && f.at < |f.node.entries|
    requires n == m[f.block := InsertedNode(f.node, f.at, Entry(key, block))]
    ensures Stores(n, InsertAt(t, d, h, key, block))
  {
    SubStep(t, d, h, d - 1);
    var s := Sub(t, d, h, d - 1);
    InsertedNodeIs(f.node, s, f.at, s.kids[f.at], key, Leaf(block));
    InsertAtStores(m, n, t, d, h, key, block);
  }

  /** The lowest level at which a block can take one more entry, or -1. */
  function DeepestOf(frames: seq<Frame>, n: nat): (i: int)
    requires n <= |frames|
    ensures -1 <= i < n && (i >= 0 ==> |frames[i].node.entries| < frames[i].node.limit)
    ensures forall j :: i < j < n ==> |frames[j].node.entries| >= frames[j].node.limit
  {
    if n == 0 then -1 else if HasRoom(frames[n - 1].node) then n - 1 else DeepestOf(frames, n - 1)
  }

  function Deepest(frames: seq<Frame>): (i: int) {
    DeepestOf(frames, |frames|)
  }

  /** The first loop of `dx_grow_tree`. */
  method FindRoom(frames: seq<Frame>) returns (i: int)
    ensures i == Deepest(frames)
  {
    i := |frames| - 1;
    while i >= 0
      invariant -1 <= i < |frames| && DeepestOf(frames, i + 1) == Deepest(frames)
    {
      if HasRoom(frames[i].node) {
        break;
      }
      i := i - 1;
    }
  }

  /** The first half of the entries of a full block have stayed, the others are in the new block. */
  ghost predicate Halved(nodes: map<nat, Node>, x: Frame, block: nat) {
    && x.block in nodes && block in nodes && nodes[x.block].entries + nodes[block].entries == x.node.entries
    && |nodes[x.block].entries| == |x.node.entries| / 2
  }

  /** All entries of the root are in the new block, the only one the root leads to. */
  ghost predicate Moved(nodes: map<nat, Node>, f: Frame, block: nat) {
    && f.block in nodes && block in nodes && f.node.entries != [] && nodes[block].entries == f.node.entries
    && nodes[f.block].entries == [Entry(f.node.entries[0].hash, block)]
  }

  /** The index blocks after a split. */
  function SplitMap(m: map<nat, Node>, f: Frame, x: Frame, c: nat, block: nat, limit: nat): (n: map<nat, Node>)
    requires f.at < |f.node.entries| && c < |x.node.entries|
  {
    m[f.block := InsertedNode(f.node, f.at, Entry(x.node.entries[c].hash, block))]
     [x.block := Node(x.node.limit, x.node.entries[..c])][block := Node(limit, x.node.entries[c..])]
  }

  lemma SplitLimits(m: map<nat, Node>, f: Frame, x: Frame, c: nat, block: nat, limit: nat)
    requires Limits(m, limit) && RootLimit(m, limit) && f.at < |f.node.entries| && c < |x.node.entries| && block != 0
    requires f.block in m && f.node == m[f.block] && x.block in m && x.node == m[x.block]
    ensures Limits(SplitMap(m, f, x, c, block, limit), limit) && RootLimit(SplitMap(m, f, x, c, block, limit), limit)
  {
  }

  lemma SplitWhole(m: map<nat, Node>, n: map<nat, Node>, t: Tree, d: nat, h: nat, i: nat, f: Frame, x: Frame, c: nat,
                   block: nat, limit: nat, t': Tree)
    requires IsIndex(m, t, d, block + 1) && h < U32 && i + 1 < d && !On(t, block) && block < BLOCKS && Limits(m, limit)
    requires RootLimit(m, limit) && FrameIs(f, m, t, d, h, i) && FrameIs(x, m, t, d, h, i + 1) && HasRoom(f.node) && !HasRoom(x.node)
    requires c == |x.node.entries| / 2 && 0 < c < |Sub(t, d, h, i + 1).keys| && f.at < |f.node.entries|
    requires n == SplitMap(m, f, x, c, block, limit) && t' == SplitAt(t, d, h, i, c, block)
    ensures IsIndex(n, t', d, block + 1) && Limits(n, limit) && RootLimit(n, limit) && RoomAt(n, t', d, h, i + 1)
    ensures SameRoutes(t, d, t', d) && SameLeaves(t, d, t', d) && Halved(n, x, block)
  {
    var n1, n2 := Node(x.node.limit, x.node.entries[..c]), Node(limit, x.node.entries[c..]);
    SplitFits(m, t, d, h, i, x, c, limit);
    assert On(t, 0);
    SplitLimits(m, f, x, c, block, limit);
    SplitNodes(m, n, t, d, h, i, f, x, c, block, n1, n2);
    HalvedIs(m, n, t, d, h, i, x, c, block, n1, n2);
    SplitRight(m, n, t, d, h, i, c, block, n1, n2, t');
  }

  lemma HalvedIs(m: map<nat, Node>, n: map<nat, Node>, t: Tree, d: nat, h: nat, i: nat, x: Frame, c: nat, block: nat, n1: Node,
                 n2: Node)
    requires Shape(t, d) && i + 1 < d && 0 < c < |Sub(t, d, h, i + 1).keys| && FrameIs(x, m, t, d, h, i + 1)
    requires SplitStored(m, n, t, d, h, i, c, block, n1, n2) && c == |x.node.entries| / 2
    requires n1.entries == x.node.entries[..c] && n2.entries == x.node.entries[c..]
    ensures Halved(n, x, block)
  {
  }

  /** Both trees lead every hash to the same leaf. */
  ghost predicate SameRoutes(t: Tree, d: nat, t': Tree, d': nat)
    requires Shape(t, d) && Shape(t', d')
  {
    forall g: nat {:trigger Route(t, d, g)} {:trigger Route(t', d', g)} :: g < U32 ==> Route(t', d', g) == Route(t, d, g)
  }

  /** Both trees have the same leaves, in the same order and between the same bounds. */
  ghost predicate SameLeaves(t: Tree, d: nat, t': Tree, d': nat)
    requires Shape(t, d) && Shape(t', d')
  {
    Spans(t', d', 0, U32) == Spans(t, d, 0, U32)
  }

  /** A tree of the index blocks that all keys of 32 bits fit in. */
  ghost predicate IsIndex(nodes: map<nat, Node>, t: Tree, d: nat, size: nat) {
    && Shape(t, d) && t.block == 0 && Ordered(t, 0, U32) && Separate(t) && Stores(nodes, t)
    && forall b: nat :: On(t, b) ==> b < size
  }

  lemma SplitRight(m: map<nat, Node>, n: map<nat, Node>, t: Tree, d: nat, h: nat, i: nat, c: nat, block: nat, n1: Node, n2: Node,
                   t': Tree)
    requires IsIndex(m, t, d, block + 1) && h < U32 && i + 1 < d && 0 < c < |Sub(t, d, h, i + 1).keys| && !On(t, block)
    requires SplitStored(m, n, t, d, h, i, c, block, n1, n2) && t' == SplitAt(t, d, h, i, c, block)
    requires |n1.entries| < n1.limit && |n2.entries| < n2.limit
    ensures IsIndex(n, t', d, block + 1) && RoomAt(n, t', d, h, i + 1)
    ensures SameRoutes(t, d, t', d) && SameLeaves(t, d, t', d)
  {
    SplitAtKeeps(t, d, h, i, c, block, 0, U32);
    SplitAtStores(m, n, t, d, h, i, c, block);
    forall g: nat | g < U32 ensures Route(t', d, g) == Route(t, d, g) {
      SplitAtRoute(t, d, h, i, c, block, 0, U32, g);
    }
    SplitAtNext(t, d, h, i, c, block, 0, U32);
    SplitAtSpans(t, d, h, i, c, block, 0, U32);
  }

  lemma SplitFits(m: map<nat, Node>, t: Tree, d: nat, h: nat, i: nat, x: Frame, c: nat, limit: nat)
    requires Shape(t, d) && i + 1 < d && FrameIs(x, m, t, d, h, i + 1) && !HasRoom(x.node) && Limits(m, limit)
    requires c == |x.node.entries| / 2
    ensures 0 < c < |Sub(t, d, h, i + 1).keys| && c < x.node.limit && |x.node.entries| - c < limit
    ensures |x.node.entries| <= limit
  {
  }

  /** The blocks of a split: the one above, and the two halves. */
  ghost predicate SplitStored(m: map<nat, Node>, n: map<nat, Node>, t: Tree, d: nat, h: nat, i: nat, c: nat, block: nat,
                              n1: Node, n2: Node)
    requires Shape(t, d) && i + 1 < d && 0 < c < |Sub(t, d, h, i + 1).keys|
  {
    var s, y := Sub(t, d, h, i), Sub(t, d, h, i + 1);
    && Shape(s, d - i) && Shape(y, d - i - 1) && y == s.kids[At(s.keys, h)]
    && s.block in n && NodeIs(n[s.block], SplitKid(s, At(s.keys, h), c, block))
    && y.block in n && n[y.block] == n1 && NodeIs(n1, Lower(y, c))
    && block in n && n[block] == n2 && NodeIs(n2, Upper(y, c, block))
    && forall b :: SameNode(m, n, b) || b == s.block || b == y.block || b == block
  }

  lemma SplitNodes(m: map<nat, Node>, n: map<nat, Node>, t: Tree, d: nat, h: nat, i: nat, f: Frame, x: Frame, c: nat,
                   block: nat, n1: Node, n2: Node)
    requires Shape(t, d) && i + 1 < d && Separate(t) && !On(t, block) && block < BLOCKS && FrameIs(f, m, t, d, h, i)
    requires FrameIs(x, m, t, d, h, i + 1) && HasRoom(f.node) && 0 < c < |Sub(t, d, h, i + 1).keys|
    requires n1 == Node(x.node.limit, x.node.entries[..c]) && n2.entries == x.node.entries[c..] && |x.node.entries| <= n2.limit
    requires n == m[f.block := InsertedNode(f.node, f.at, Entry(x.node.entries[c].hash, block))][x.block := n1][block := n2]
    ensures SplitStored(m, n, t, d, h, i, c, block, n1, n2)
  {
    SubStep(t, d, h, i);
    var s, y := Sub(t, d, h, i), Sub(t, d, h, i + 1);
    SubSeparate(t, d, h, i);
    assert On(y, y.block) && s.block != y.block;
    SubOn(t, d, h, i, s.block);
    SubOn(t, d, h, i + 1, y.block);
    HalvesAre(x.node, y, c, n2.limit, block);
    InsertedNodeIs(f.node, s, f.at, Lower(y, c), y.keys[c], Upper(y, c, block));
  }

  lemma DeeperWhole(m: map<nat, Node>, n: map<nat, Node>, t: Tree, d: nat, h: nat, f: Frame, block: nat, limit: nat, t': Tree)
    requires 0 < d && IsIndex(m, t, d, block + 1) && Limits(m, limit) && !On(t, block) && block < BLOCKS
    requires RootLimit(m, limit) && FrameIs(f, m, t, d, h, 0) && f.node.entries != [] && t' == Deeper(t, block)
    requires n == m[block := Node(limit, f.node.entries)][f.block := Node(f.node.limit, [Entry(f.node.entries[0].hash, block)])]
    ensures IsIndex(n, t', d + 1, block + 1) && Limits(n, limit) && RootLimit(n, limit)
    ensures SameRoutes(t, d, t', d + 1) && SameLeaves(t, d, t', d + 1)
    ensures RoomAt(n, t', d + 1, h, 1)
  {
    DeeperStores(m, n, t, d, block, f.node);
    DeeperKeeps(t, d, block, 0, U32);
    forall g: nat | g < U32 ensures Route(t', d + 1, g) == Route(t, d, g) {
      DeeperRoute(t, d, block, g);
    }
    DeeperRoute(t, d, block, h);
    DeeperSpans(t, d, block, 0, U32);
  }
}
