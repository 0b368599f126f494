/**
 The index of a hashed directory in libext2fs/link.c, as a tree: every index block holds keys and the numbers of
 the blocks below it, and a hash is followed down to a leaf.
 */
module HashTree {

  /** The first key of a block is never looked at. */
  datatype Tree = Leaf(block: nat) | Inner(block: nat, keys: seq<nat>, kids: seq<Tree>)

  /** All leaves lie at depth d. */
  ghost predicate Shape(t: Tree, d: nat)
    decreases d
  {
    match t
    case Leaf(_) => d == 0
    case Inner(_, keys, kids) => d > 0 && |keys| == |kids| > 0 && forall i :: 0 <= i < |kids| ==> Shape(kids[i], d - 1)
  }

  // ----- Searching a block -----

  /** The last of the first n keys, but for the first, that is at most h; or the first. */
  function AtIn(keys: seq<nat>, h: nat, n: nat): (i: nat)
    requires 0 < n <= |keys|
    ensures i < n
  {
    if n == 1 then 0 else if keys[n - 1] <= h then n - 1 else AtIn(keys, h, n - 1)
  }

  function At(keys: seq<nat>, h: nat): (i: nat)
    requires keys != []
    ensures i < |keys|
  {
    AtIn(keys, h, |keys|)
  }

  ghost predicate IsAt(keys: seq<nat>, h: nat, i: nat) {
    i < |keys| && (i > 0 ==> keys[i] <= h) && forall j :: i < j < |keys| ==> h < keys[j]
  }

  lemma {:induction false} AtInIs(keys: seq<nat>, h: nat, n: nat, i: nat)
    requires i < n <= |keys| && (i > 0 ==> keys[i] <= h) && forall j :: i < j < n ==> h < keys[j]
    ensures AtIn(keys, h, n) == i
  {
    if n > i + 1 {
      AtInIs(keys, h, n - 1, i);
    }
  }

  /** There is one such place only. */
  lemma AtIs(keys: seq<nat>, h: nat, i: nat)
    requires IsAt(keys, h, i)
    ensures At(keys, h) == i
  {
    AtInIs(keys, h, |keys|, i);
  }

  lemma {:induction false} AtInHolds(keys: seq<nat>, h: nat, n: nat)
    requires 0 < n <= |keys|
    ensures var i := AtIn(keys, h, n); (i > 0 ==> keys[i] <= h) && forall j :: i < j < n ==> h < keys[j]
  {
    if n > 1 {
      AtInHolds(keys, h, n - 1);
    }
  }

  lemma AtHolds(keys: seq<nat>, h: nat)
    requires keys != []
    ensures IsAt(keys, h, At(keys, h))
  {
    AtInHolds(keys, h, |keys|);
  }

  // ----- Following a hash -----

  /** The subtree k levels down that a hash leads to, and the leaf. */
  function Sub(t: Tree, d: nat, h: nat, k: nat): (s: Tree)
    requires Shape(t, d) && k <= d
    ensures Shape(s, d - k)
    decreases k
  {
    if k == 0 then t else Sub(t.kids[At(t.keys, h)], d - 1, h, k - 1)
  }

  function Route(t: Tree, d: nat, h: nat): (block: nat)
    requires Shape(t, d)
    decreases d
  {
    if d == 0 then t.block else Route(t.kids[At(t.keys, h)], d - 1, h)
  }

  lemma {:induction false} RouteIsSub(t: Tree, d: nat, h: nat, k: nat)
    requires Shape(t, d) && k <= d
    ensures Route(t, d, h) == Route(Sub(t, d, h, k), d - k, h)
    decreases k
  {
    if k > 0 {
      RouteIsSub(t.kids[At(t.keys, h)], d - 1, h, k - 1);
    }
  }

  // ----- Keys in order -----

  /** The lower bound of the hashes below kid i. */
  function Bound(keys: seq<nat>, i: nat, lo: nat, hi: nat): (b: nat) {
    if i == 0 then lo else if i < |keys| then keys[i] else hi
  }

  ghost predicate KeysInOrder(keys: seq<nat>, lo: nat, hi: nat) {
    && lo <= hi && (forall i :: 0 < i < |keys| ==> lo <= keys[i] <= hi)
    && (forall i, j :: 0 < i < j < |keys| ==> keys[i] <= keys[j])
  }

  /** Below every kid there are keys from its bound to the next only. */
  ghost predicate Ordered(t: Tree, lo: nat, hi: nat)
    decreases t
  {
    lo <= hi &&
    match t
    case Leaf(_) => true
    case Inner(_, keys, kids) =>
      |keys| == |kids| && KeysInOrder(keys, lo, hi) &&
      forall i :: 0 <= i < |kids| ==> Ordered(kids[i], Bound(keys, i, lo, hi), Bound(keys, i + 1, lo, hi))
  }

  /** The bounds of the subtree that h leads to. */
  function Lo(t: Tree, d: nat, h: nat, k: nat, lo: nat): (b: nat)
    requires Shape(t, d) && k <= d
    decreases k
  {
    if k == 0 then lo
    else var i := At(t.keys, h); Lo(t.kids[i], d - 1, h, k - 1, if i == 0 then lo else t.keys[i])
  }

  function Hi(t: Tree, d: nat, h: nat, k: nat, hi: nat): (b: nat)
    requires Shape(t, d) && k <= d
    decreases k
  {
    if k == 0 then hi
    else var i := At(t.keys, h); Hi(t.kids[i], d - 1, h, k - 1, if i + 1 < |t.keys| then t.keys[i + 1] else hi)
  }

  /** A hash lies in the bounds of every subtree it leads to. */
  lemma {:induction false} SubOrdered(t: Tree, d: nat, h: nat, k: nat, lo: nat, hi: nat)
    requires Shape(t, d) && k <= d && Ordered(t, lo, hi) && lo <= h < hi
    ensures Ordered(Sub(t, d, h, k), Lo(t, d, h, k, lo), Hi(t, d, h, k, hi))
    ensures Lo(t, d, h, k, lo) <= h < Hi(t, d, h, k, hi)
    decreases k
  {
    if k > 0 {
      var i := At(t.keys, h);
      AtHolds(t.keys, h);
      SubOrdered(t.kids[i], d - 1, h, k - 1, Bound(t.keys, i, lo, hi), Bound(t.keys, i + 1, lo, hi));
    }
  }

  // ----- Replacing a subtree -----

  /** The tree with another subtree where h leads to, k levels down. */
  function Put(t: Tree, d: nat, h: nat, k: nat, x: Tree): (t': Tree)
    requires Shape(t, d) && k <= d && Shape(x, d - k)
    ensures Shape(t', d)
    decreases k
  {
    if k == 0 then x
    else var i := At(t.keys, h); Inner(t.block, t.keys, t.kids[i := Put(t.kids[i], d - 1, h, k - 1, x)])
  }

  lemma {:induction false} PutOrdered(t: Tree, d: nat, h: nat, k: nat, x: Tree, lo: nat, hi: nat)
    requires Shape(t, d) && k <= d && Shape(x, d - k) && Ordered(t, lo, hi)
    requires Ordered(x, Lo(t, d, h, k, lo), Hi(t, d, h, k, hi))
    ensures Ordered(Put(t, d, h, k, x), lo, hi)
    decreases k
  {
    if k > 0 {
      var i := At(t.keys, h);
      PutOrdered(t.kids[i], d - 1, h, k - 1, x, Bound(t.keys, i, lo, hi), Bound(t.keys, i + 1, lo, hi));
    }
  }

  /** Hashes in the bounds of the subtree are led by the new one, all others as before. */
  lemma {:induction false} PutRoute(t: Tree, d: nat, h: nat, k: nat, x: Tree, lo: nat, hi: nat, g: nat)
    requires Shape(t, d) && k <= d && Shape(x, d - k) && Ordered(t, lo, hi) && lo <= h < hi && lo <= g < hi
    ensures Route(Put(t, d, h, k, x), d, g) ==
            if Lo(t, d, h, k, lo) <= g < Hi(t, d, h, k, hi) then Route(x, d - k, g) else Route(t, d, g)
    decreases k
  {
    if k > 0 {
      var i := At(t.keys, h);
      AtHolds(t.keys, h);
      var lo', hi' := Bound(t.keys, i, lo, hi), Bound(t.keys, i + 1, lo, hi);
      if At(t.keys, g) == i {
        AtHolds(t.keys, g);
        PutRoute(t.kids[i], d - 1, h, k - 1, x, lo', hi', g);
      } else {
        PutElsewhere(t, d, h, k, lo, hi, g);
      }
    }
  }

  /** A hash that takes another way is not in the bounds. */
  lemma PutElsewhere(t: Tree, d: nat, h: nat, k: nat, lo: nat, hi: nat, g: nat)
    requires Shape(t, d) && 0 < k <= d && Ordered(t, lo, hi) && lo <= g < hi && At(t.keys, g) != At(t.keys, h)
    ensures !(Lo(t, d, h, k, lo) <= g < Hi(t, d, h, k, hi))
  {
    var i := At(t.keys, h);
    BoundsNest(t.kids[i], d - 1, h, k - 1, Bound(t.keys, i, lo, hi), Bound(t.keys, i + 1, lo, hi));
    AtOutside(t.keys, g, i, lo, hi);
  }

  lemma AtOutside(keys: seq<nat>, g: nat, i: nat, lo: nat, hi: nat)
    requires i < |keys| && KeysInOrder(keys, lo, hi) && At(keys, g) != i && lo <= g < hi
    ensures !(Bound(keys, i, lo, hi) <= g < Bound(keys, i + 1, lo, hi))
  {
    AtHolds(keys, g);
  }

  lemma {:induction false} BoundsNest(t: Tree, d: nat, h: nat, k: nat, lo: nat, hi: nat)
    requires Shape(t, d) && k <= d && Ordered(t, lo, hi)
    ensures lo <= Lo(t, d, h, k, lo) && Hi(t, d, h, k, hi) <= hi
    decreases k
  {
    if k > 0 {
      var i := At(t.keys, h);
      BoundsNest(t.kids[i], d - 1, h, k - 1, Bound(t.keys, i, lo, hi), Bound(t.keys, i + 1, lo, hi));
    }
  }

  // ----- One kid more -----

  /** A list with one item more, behind place a. */
  function With<T>(s: seq<T>, a: nat, x: T): (s': seq<T>)
    requires a < |s|
    ensures |s'| == |s| + 1
    ensures forall j :: 0 <= j < |s'| ==> s'[j] == if j <= a then s[j] else if j == a + 1 then x else s[j - 1]
  {
    s[..a + 1] + [x] + s[a + 1..]
  }

  function KidsWith(kids: seq<Tree>, a: nat, x: Tree, y: Tree): (kids': seq<Tree>)
    requires a < |kids|
    ensures |kids'| == |kids| + 1
    ensures forall j :: 0 <= j < |kids'| ==> kids'[j] == if j < a then kids[j] else if j == a then x else if j == a + 1 then y else kids[j - 1]
  {
    kids[..a] + [x, y] + kids[a + 1..]
  }

  /** Kid a becomes x, and behind it comes y with a key. */
  function Insert(t: Tree, a: nat, x: Tree, key: nat, y: Tree): (t': Tree)
    requires t.Inner? && a < |t.keys| == |t.kids|
  {
    Inner(t.block, With(t.keys, a, key), KidsWith(t.kids, a, x, y))
  }

  lemma InsertShape(t: Tree, d: nat, a: nat, x: Tree, key: nat, y: Tree)
    requires Shape(t, d) && 0 < d && a < |t.keys| && Shape(x, d - 1) && Shape(y, d - 1)
    ensures Shape(Insert(t, a, x, key, y), d)
  {
  }

  /** Where a hash goes among keys of which one is new. */
  lemma AtWith(keys: seq<nat>, a: nat, key: nat, lo: nat, hi: nat, g: nat)
    requires a < |keys| && KeysInOrder(keys, lo, hi) && Bound(keys, a, lo, hi) <= key <= Bound(keys, a + 1, lo, hi)
    ensures var i := At(keys, g);
            At(With(keys, a, key), g) == if i > a then i + 1 else if i == a && key <= g then a + 1 else i
  {
    var i := At(keys, g);
    AtHolds(keys, g);
    AtIs(With(keys, a, key), g, if i > a then i + 1 else if i == a && key <= g then a + 1 else i);
  }

  lemma InsertRoute(t: Tree, d: nat, a: nat, x: Tree, key: nat, y: Tree, lo: nat, hi: nat, g: nat)
    requires Shape(t, d) && 0 < d && a < |t.keys| && Shape(x, d - 1) && Shape(y, d - 1) && Ordered(t, lo, hi)
    requires Bound(t.keys, a, lo, hi) <= key <= Bound(t.keys, a + 1, lo, hi)
    ensures Shape(Insert(t, a, x, key, y), d)
    ensures Route(Insert(t, a, x, key, y), d, g) ==
            if At(t.keys, g) != a then Route(t, d, g) else Route(if key <= g then y else x, d - 1, g)
  {
    InsertShape(t, d, a, x, key, y);
    AtWith(t.keys, a, key, lo, hi, g);
  }

  lemma InsertOrdered(t: Tree, d: nat, a: nat, x: Tree, key: nat, y: Tree, lo: nat, hi: nat)
    requires Shape(t, d) && 0 < d && a < |t.keys| && Ordered(t, lo, hi)
    requires Ordered(x, Bound(t.keys, a, lo, hi), key) && Ordered(y, key, Bound(t.keys, a + 1, lo, hi))
    ensures Ordered(Insert(t, a, x, key, y), lo, hi)
  {
    var t' := Insert(t, a, x, key, y);
    BoundsApart(x, Bound(t.keys, a, lo, hi), key);
    BoundsApart(y, key, Bound(t.keys, a + 1, lo, hi));
    WithInOrder(t.keys, a, key, lo, hi);
    forall i | 0 <= i < |t'.kids| ensures Ordered(t'.kids[i], Bound(t'.keys, i, lo, hi), Bound(t'.keys, i + 1, lo, hi)) {
      if i == a || i == a + 1 {
        BoundsWith(t.keys, a, key, lo, hi);
      } else {
        KidOrdered(t, a, x, key, y, lo, hi, i, if i > a then i - 1 else i);
      }
    }
  }

  lemma BoundsApart(t: Tree, lo: nat, hi: nat)
    requires Ordered(t, lo, hi)
    ensures lo <= hi
  {
  }

  lemma WithInOrder(keys: seq<nat>, a: nat, key: nat, lo: nat, hi: nat)
    requires a < |keys| && KeysInOrder(keys, lo, hi) && Bound(keys, a, lo, hi) <= key <= Bound(keys, a + 1, lo, hi)
    ensures KeysInOrder(With(keys, a, key), lo, hi)
  {
    var keys' := With(keys, a, key);
    forall i, j | 0 < i < j < |keys'| ensures keys'[i] <= keys'[j] {
    }
  }

  lemma BoundsWith(keys: seq<nat>, a: nat, key: nat, lo: nat, hi: nat)
    requires a < |keys|
    ensures var keys' := With(keys, a, key);
            Bound(keys', a, lo, hi) == Bound(keys, a, lo, hi) && Bound(keys', a + 1, lo, hi) == key &&
            Bound(keys', a + 2, lo, hi) == Bound(keys, a + 1, lo, hi)
  {
  }

  lemma KidOrdered(t: Tree, a: nat, x: Tree, key: nat, y: Tree, lo: nat, hi: nat, i: nat, j: nat)
    requires t.Inner? && a < |t.keys| == |t.kids| && Ordered(t, lo, hi) && i <= |t.kids| && i != a && i != a + 1
    requires j == if i > a then i - 1 else i
    ensures var t' := Insert(t, a, x, key, y);
            Ordered(t'.kids[i], Bound(t'.keys, i, lo, hi), Bound(t'.keys, i + 1, lo, hi))
  {
    assert Ordered(t.kids[j], Bound(t.keys, j, lo, hi), Bound(t.keys, j + 1, lo, hi));
  }

  // ----- Splitting an index block -----

  function Lower(t: Tree, c: nat): (x: Tree)
    requires t.Inner? && c <= |t.keys| == |t.kids|
  {
    Inner(t.block, t.keys[..c], t.kids[..c])
  }

  function Upper(t: Tree, c: nat, block: nat): (y: Tree)
    requires t.Inner? && c <= |t.keys| == |t.kids|
  {
    Inner(block, t.keys[c..], t.kids[c..])
  }

  lemma SplitShape(t: Tree, d: nat, c: nat, block: nat)
    requires Shape(t, d) && 0 < d && 0 < c < |t.keys|
    ensures Shape(Lower(t, c), d) && Shape(Upper(t, c, block), d)
  {
  }

  /** Both halves together lead every hash where the whole did. */
  lemma SplitRoute(t: Tree, d: nat, c: nat, block: nat, lo: nat, hi: nat, g: nat)
    requires Shape(t, d) && 0 < d && 0 < c < |t.keys| && Ordered(t, lo, hi)
    ensures Shape(Lower(t, c), d) && Shape(Upper(t, c, block), d)
    ensures Route(t, d, g) == Route(if t.keys[c] <= g then Upper(t, c, block) else Lower(t, c), d, g)
  {
    SplitShape(t, d, c, block);
    var i := At(t.keys, g);
    AtHolds(t.keys, g);
    if t.keys[c] <= g {
      AtIs(t.keys[c..], g, i - c);
    } else {
      AtIs(t.keys[..c], g, i);
    }
  }

  lemma SplitOrdered(t: Tree, c: nat, block: nat, lo: nat, hi: nat)
    requires t.Inner? && Ordered(t, lo, hi) && 0 < c < |t.keys|
    ensures Ordered(Lower(t, c), lo, t.keys[c]) && Ordered(Upper(t, c, block), t.keys[c], hi)
  {
    var x, y, key := Lower(t, c), Upper(t, c, block), t.keys[c];
    forall i | 0 <= i < |x.kids| ensures Ordered(x.kids[i], Bound(x.keys, i, lo, key), Bound(x.keys, i + 1, lo, key)) {
      assert Ordered(t.kids[i], Bound(t.keys, i, lo, hi), Bound(t.keys, i + 1, lo, hi));
    }
    forall i | 0 <= i < |y.kids| ensures Ordered(y.kids[i], Bound(y.keys, i, key, hi), Bound(y.keys, i + 1, key, hi)) {
      var j := c + i;
      assert Ordered(t.kids[j], Bound(t.keys, j, lo, hi), Bound(t.keys, j + 1, lo, hi));
    }
  }

  // ----- No block twice -----

  /** The block is one of the tree, index block or leaf. */
  ghost predicate On(t: Tree, b: nat)
    decreases t
  {
    t.block == b || (t.Inner? && exists i :: 0 <= i < |t.kids| && On(t.kids[i], b))
  }

  ghost predicate Apart(x: Tree, y: Tree) {
    forall b :: !(On(x, b) && On(y, b))
  }

  ghost predicate Separate(t: Tree)
    decreases t
  {
    t.Inner? ==>
      (forall i :: 0 <= i < |t.kids| ==> Separate(t.kids[i]) && !On(t.kids[i], t.block)) &&
      (forall i, j :: 0 <= i < j < |t.kids| ==> Apart(t.kids[i], t.kids[j]))
  }

  /** The blocks of x are those of t, and one more at most. */
  ghost predicate Grown(t: Tree, x: Tree, extra: nat) {
    forall b :: On(x, b) ==> On(t, b) || b == extra
  }

  lemma {:induction false} SubOn(t: Tree, d: nat, h: nat, k: nat, b: nat)
    requires Shape(t, d) && k <= d && On(Sub(t, d, h, k), b)
    ensures On(t, b)
    decreases k
  {
    if k > 0 {
      SubOn(t.kids[At(t.keys, h)], d - 1, h, k - 1, b);
    }
  }

  lemma {:induction false} SubSeparate(t: Tree, d: nat, h: nat, k: nat)
    requires Shape(t, d) && k <= d && Separate(t)
    ensures Separate(Sub(t, d, h, k))
    decreases k
  {
    if k > 0 {
      SubSeparate(t.kids[At(t.keys, h)], d - 1, h, k - 1);
    }
  }

  lemma {:induction false} PutGrown(t: Tree, d: nat, h: nat, k: nat, x: Tree, extra: nat)
    requires Shape(t, d) && k <= d && Shape(x, d - k) && Grown(Sub(t, d, h, k), x, extra)
    ensures Grown(t, Put(t, d, h, k, x), extra)
    decreases k
  {
    if k > 0 {
      var i, t' := At(t.keys, h), Put(t, d, h, k, x);
      PutGrown(t.kids[i], d - 1, h, k - 1, x, extra);
      forall b | On(t', b) ensures On(t, b) || b == extra {
        if b != t.block {
          var j :| 0 <= j < |t'.kids| && On(t'.kids[j], b);
          assert j != i ==> On(t.kids[j], b);
        }
      }
    }
  }

  /** A subtree that has grown by a block from outside keeps all blocks apart. */
  lemma {:induction false} PutSeparate(t: Tree, d: nat, h: nat, k: nat, x: Tree, extra: nat)
    requires Shape(t, d) && k <= d && Shape(x, d - k) && Separate(t) && Separate(x)
    requires Grown(Sub(t, d, h, k), x, extra) && !On(t, extra)
    ensures Separate(Put(t, d, h, k, x))
    decreases k
  {
    if k > 0 {
      var i := At(t.keys, h);
      var kid, kid' := t.kids[i], Put(t.kids[i], d - 1, h, k - 1, x);
      PutSeparate(kid, d - 1, h, k - 1, x, extra);
      PutGrown(kid, d - 1, h, k - 1, x, extra);
      KidReplaced(t, i, kid', extra);
    }
  }

  lemma KidReplaced(t: Tree, i: nat, kid: Tree, extra: nat)
    requires t.Inner? && i < |t.kids| && Separate(t) && Separate(kid) && Grown(t.kids[i], kid, extra) && !On(t, extra)
    ensures Separate(Inner(t.block, t.keys, t.kids[i := kid]))
  {
    forall j | 0 <= j < |t.kids| && j != i ensures Apart(kid, t.kids[j]) && Apart(t.kids[j], kid) {
      assert if i < j then Apart(t.kids[i], t.kids[j]) else Apart(t.kids[j], t.kids[i]);
    }
  }

  // ----- The blocks on disk -----

  /** `struct ext2_dx_entry`. */
  datatype Entry = Entry(hash: nat, block: nat)

  /** An index block: how many entries it can hold, and those it holds. */
  datatype Node = Node(limit: nat, entries: seq<Entry>)

  /** How many blocks the 28 bits of EXT4_DX_BLOCK_MASK can name. */
  const BLOCKS := 0x1000_0000

  function Block(e: Entry): (b: nat) {
    e.block % BLOCKS
  }

  ghost predicate NodeIs(n: Node, t: Tree) {
    && t.Inner? && |t.kids| == |t.keys| == |n.entries| <= n.limit
    && (forall i :: 0 <= i < |n.entries| ==> Block(n.entries[i]) == t.kids[i].block)
    && (forall i :: 0 < i < |n.entries| ==> n.entries[i].hash == t.keys[i])
  }

  /** The index blocks hold the tree. */
  ghost predicate Stores(nodes: map<nat, Node>, t: Tree)
    decreases t
  {
    t.Inner? ==>
      t.block in nodes && NodeIs(nodes[t.block], t) && forall i :: 0 <= i < |t.kids| ==> Stores(nodes, t.kids[i])
  }

  ghost predicate SameNode(m: map<nat, Node>, n: map<nat, Node>, b: nat) {
    (b in m <==> b in n) && (b in m ==> n[b] == m[b])
  }

  lemma {:induction false} StoresKept(m: map<nat, Node>, n: map<nat, Node>, t: Tree)
    requires Stores(m, t) && forall b :: On(t, b) ==> SameNode(m, n, b)
    ensures Stores(n, t)
    decreases t
  {
    if t.Inner? {
      assert SameNode(m, n, t.block);
      forall i | 0 <= i < |t.kids| ensures Stores(n, t.kids[i]) {
        StoresKept(m, n, t.kids[i]);
      }
    }
  }

  lemma {:induction false} SubStores(nodes: map<nat, Node>, t: Tree, d: nat, h: nat, k: nat)
    requires Shape(t, d) && k <= d && Stores(nodes, t)
    ensures Stores(nodes, Sub(t, d, h, k))
    decreases k
  {
    if k > 0 {
      SubStores(nodes, t.kids[At(t.keys, h)], d - 1, h, k - 1);
    }
  }

  /** Only blocks of x, or none of t, have changed. */
  ghost predicate ChangedIn(m: map<nat, Node>, n: map<nat, Node>, t: Tree, x: Tree) {
    forall b :: SameNode(m, n, b) || On(x, b) || !On(t, b)
  }

  /** If the blocks of the subtree hold the new one, the others still hold the rest of the tree. */
  lemma {:induction false} PutStores(m: map<nat, Node>, n: map<nat, Node>, t: Tree, d: nat, h: nat, k: nat, x: Tree)
    requires Shape(t, d) && k <= d && Shape(x, d - k) && Separate(t) && Stores(m, t) && Stores(n, x)
    requires x.block == Sub(t, d, h, k).block && ChangedIn(m, n, t, Sub(t, d, h, k))
    ensures Stores(n, Put(t, d, h, k, x)) && Put(t, d, h, k, x).block == t.block
    decreases k
  {
    if k > 0 {
      var i := At(t.keys, h);
      var kid, s := t.kids[i], Sub(t, d, h, k);
      forall b ensures SameNode(m, n, b) || On(s, b) || !On(kid, b) {
        assert On(kid, b) ==> On(t, b);
      }
      PutStores(m, n, kid, d - 1, h, k - 1, x);
      OthersKept(m, n, t, i, s, d, h, k);
    }
  }

  lemma OthersKept(m: map<nat, Node>, n: map<nat, Node>, t: Tree, i: nat, s: Tree, d: nat, h: nat, k: nat)
    requires Shape(t, d) && 0 < k <= d && Separate(t) && Stores(m, t) && i == At(t.keys, h) && s == Sub(t, d, h, k)
    requires ChangedIn(m, n, t, s)
    ensures SameNode(m, n, t.block) && forall j :: 0 <= j < |t.kids| && j != i ==> Stores(n, t.kids[j])
  {
    forall b | On(s, b) ensures On(t.kids[i], b) {
      SubOn(t.kids[i], d - 1, h, k - 1, b);
    }
    forall j | 0 <= j < |t.kids| && j != i ensures Stores(n, t.kids[j]) {
      assert if i < j then Apart(t.kids[i], t.kids[j]) else Apart(t.kids[j], t.kids[i]);
      StoresKept(m, n, t.kids[j]);
    }
  }

  // ----- The two ways to grow -----

  lemma KidInserted(t: Tree, a: nat, x: Tree, key: nat, y: Tree, extra: nat)
    requires t.Inner? && a < |t.keys| == |t.kids| && Separate(t) && !On(t, extra)
    requires Separate(x) && Separate(y) && Apart(x, y)
    requires forall b :: On(x, b) ==> On(t.kids[a], b)
    requires Grown(t.kids[a], y, extra)
    ensures Separate(Insert(t, a, x, key, y)) && Grown(t, Insert(t, a, x, key, y), extra)
  {
    var t' := Insert(t, a, x, key, y);
    forall j | 0 <= j < |t.kids| && j != a
      ensures Apart(x, t.kids[j]) && Apart(t.kids[j], x) && Apart(y, t.kids[j]) && Apart(t.kids[j], y)
    {
      assert if a < j then Apart(t.kids[a], t.kids[j]) else Apart(t.kids[j], t.kids[a]);
      assert !On(t.kids[j], extra);
    }
    forall b | On(t', b) ensures On(t, b) || b == extra {
      if b != t.block {
        var j :| 0 <= j < |t'.kids| && On(t'.kids[j], b);
        InsertedKidOn(t, a, x, key, y, extra, j, b);
      }
    }
    forall j | 0 <= j < |t'.kids| ensures Separate(t'.kids[j]) && !On(t'.kids[j], t.block) {
      InsertedKidSeparate(t, a, x, key, y, extra, j);
    }
  }

  lemma InsertedKidOn(t: Tree, a: nat, x: Tree, key: nat, y: Tree, extra: nat, j: nat, b: nat)
    requires t.Inner? && a < |t.keys| == |t.kids| && j <= |t.kids|
    requires (forall b :: On(x, b) ==> On(t.kids[a], b)) && Grown(t.kids[a], y, extra)
    requires On(Insert(t, a, x, key, y).kids[j], b)
    ensures On(t, b) || b == extra
  {
    var i := if j > a then j - 1 else j;
    assert b == extra || On(t.kids[i], b);
  }

  lemma InsertedKidSeparate(t: Tree, a: nat, x: Tree, key: nat, y: Tree, extra: nat, j: nat)
    requires t.Inner? && a < |t.keys| == |t.kids| && Separate(t) && !On(t, extra) && Separate(x) && Separate(y)
    requires (forall b :: On(x, b) ==> On(t.kids[a], b)) && Grown(t.kids[a], y, extra) && j <= |t.kids|
    ensures var kid := Insert(t, a, x, key, y).kids[j]; Separate(kid) && !On(kid, t.block)
  {
    var i := if j > a then j - 1 else j;
    assert Separate(t.kids[i]) && !On(t.kids[i], t.block);
  }

  lemma HalvesApart(t: Tree, c: nat, extra: nat)
    requires t.Inner? && |t.keys| == |t.kids| && c <= |t.kids| && Separate(t) && !On(t, extra)
    ensures Separate(Lower(t, c)) && Separate(Upper(t, c, extra)) && Apart(Lower(t, c), Upper(t, c, extra))
    ensures (forall b :: On(Lower(t, c), b) ==> On(t, b)) && Grown(t, Upper(t, c, extra), extra)
  {
    var x, y := Lower(t, c), Upper(t, c, extra);
    forall i | 0 <= i < |y.kids| ensures y.kids[i] == t.kids[c + i] && !On(y.kids[i], extra) {
    }
    forall b | On(y, b) ensures b == extra || (On(t, b) && b != t.block) {
      if b != extra {
        var i :| 0 <= i < |y.kids| && On(y.kids[i], b);
        assert On(t.kids[c + i], b);
      }
    }
    forall b | On(y, b) ensures !On(x, b) {
      if b != extra {
        var j :| 0 <= j < |y.kids| && On(y.kids[j], b);
        forall i | 0 <= i < c ensures !On(t.kids[i], b) {
          assert Apart(t.kids[i], t.kids[c + j]);
        }
      }
    }
  }

  /** The index block below t at a is split in two at c. */
  function SplitKid(t: Tree, a: nat, c: nat, extra: nat): (t': Tree)
    requires t.Inner? && a < |t.keys| == |t.kids| && t.kids[a].Inner? && 0 < c < |t.kids[a].keys| == |t.kids[a].kids|
  {
    Insert(t, a, Lower(t.kids[a], c), t.kids[a].keys[c], Upper(t.kids[a], c, extra))
  }

  /** A split keeps everything and leads every hash where it went before. */
  lemma SplitKidKeeps(t: Tree, d: nat, a: nat, c: nat, extra: nat, lo: nat, hi: nat)
    requires Shape(t, d) && 1 < d && a < |t.keys| && Shape(t.kids[a], d - 1) && 0 < c < |t.kids[a].keys|
    requires Ordered(t, lo, hi) && Separate(t) && !On(t, extra)
    ensures var t' := SplitKid(t, a, c, extra);
            Shape(t', d) && Ordered(t', lo, hi) && Separate(t') && Grown(t, t', extra) && t'.block == t.block
  {
    var x := t.kids[a];
    SplitShape(x, d - 1, c, extra);
    InsertShape(t, d, a, Lower(x, c), x.keys[c], Upper(x, c, extra));
    SplitOrdered(x, c, extra, Bound(t.keys, a, lo, hi), Bound(t.keys, a + 1, lo, hi));
    InsertOrdered(t, d, a, Lower(x, c), x.keys[c], Upper(x, c, extra), lo, hi);
    HalvesApart(x, c, extra);
    KidInserted(t, a, Lower(x, c), x.keys[c], Upper(x, c, extra), extra);
  }

  lemma SplitKidRoute(t: Tree, d: nat, a: nat, c: nat, extra: nat, lo: nat, hi: nat, g: nat)
    requires Shape(t, d) && 1 < d && a < |t.keys| && Shape(t.kids[a], d - 1) && 0 < c < |t.kids[a].keys| && Ordered(t, lo, hi)
    ensures Shape(SplitKid(t, a, c, extra), d) && Route(SplitKid(t, a, c, extra), d, g) == Route(t, d, g)
  {
    var x := t.kids[a];
    SplitShape(x, d - 1, c, extra);
    SplitOrdered(x, c, extra, Bound(t.keys, a, lo, hi), Bound(t.keys, a + 1, lo, hi));
    BoundsApart(Lower(x, c), Bound(t.keys, a, lo, hi), x.keys[c]);
    BoundsApart(Upper(x, c, extra), x.keys[c], Bound(t.keys, a + 1, lo, hi));
    InsertRoute(t, d, a, Lower(x, c), x.keys[c], Upper(x, c, extra), lo, hi, g);
    SplitRoute(x, d - 1, c, extra, Bound(t.keys, a, lo, hi), Bound(t.keys, a + 1, lo, hi), g);
  }

  /** A new leaf comes behind the leaf below t at a. */
  function InsertLeaf(t: Tree, a: nat, key: nat, extra: nat): (t': Tree)
    requires t.Inner? && a < |t.keys| == |t.kids|
  {
    Insert(t, a, t.kids[a], key, Leaf(extra))
  }

  lemma InsertLeafKeeps(t: Tree, a: nat, key: nat, extra: nat, lo: nat, hi: nat)
    requires Shape(t, 1) && a < |t.keys| && Ordered(t, lo, hi) && Separate(t) && !On(t, extra)
    requires Bound(t.keys, a, lo, hi) <= key <= Bound(t.keys, a + 1, lo, hi)
    ensures var t' := InsertLeaf(t, a, key, extra);
            Shape(t', 1) && Ordered(t', lo, hi) && Separate(t') && Grown(t, t', extra) && t'.block == t.block
  {
    InsertShape(t, 1, a, t.kids[a], key, Leaf(extra));
    InsertOrdered(t, 1, a, t.kids[a], key, Leaf(extra), lo, hi);
    assert !On(t.kids[a], extra);
    KidInserted(t, a, t.kids[a], key, Leaf(extra), extra);
  }

  /** Only hashes from the key on that went to the old leaf go to the new one. */
  lemma InsertLeafRoute(t: Tree, a: nat, key: nat, extra: nat, lo: nat, hi: nat, g: nat)
    requires Shape(t, 1) && a < |t.keys| && Ordered(t, lo, hi)
    requires Bound(t.keys, a, lo, hi) <= key <= Bound(t.keys, a + 1, lo, hi)
    ensures Shape(InsertLeaf(t, a, key, extra), 1)
    ensures Route(InsertLeaf(t, a, key, extra), 1, g) == if At(t.keys, g) == a && key <= g then extra else Route(t, 1, g)
  {
    InsertRoute(t, 1, a, t.kids[a], key, Leaf(extra), lo, hi, g);
  }

  // ----- Growing on disk -----

  /** `dx_insert_entry`, on the contents of a block. */
  function InsertedNode(n: Node, a: nat, e: Entry): (n': Node)
    requires a < |n.entries|
  {
    Node(n.limit, With(n.entries, a, e))
  }

  lemma InsertedNodeIs(n: Node, t: Tree, a: nat, x: Tree, key: nat, y: Tree)
    requires NodeIs(n, t) && a < |t.keys| && |n.entries| < n.limit && x.block == t.kids[a].block && y.block < BLOCKS
    ensures NodeIs(InsertedNode(n, a, Entry(key, y.block)), Insert(t, a, x, key, y))
  {
    var n', t' := InsertedNode(n, a, Entry(key, y.block)), Insert(t, a, x, key, y);
    forall i | 0 <= i < |n'.entries|
      ensures Block(n'.entries[i]) == t'.kids[i].block && (i > 0 ==> n'.entries[i].hash == t'.keys[i])
    {
      var j := if i > a then i - 1 else i;
      assert Block(n.entries[j]) == t.kids[j].block && (j > 0 ==> n.entries[j].hash == t.keys[j]);
    }
  }

  lemma HalvesAre(n: Node, t: Tree, c: nat, limit: nat, block: nat)
    requires NodeIs(n, t) && 0 < c < |t.keys| && |t.keys| <= limit
    ensures NodeIs(Node(n.limit, n.entries[..c]), Lower(t, c)) && NodeIs(Node(limit, n.entries[c..]), Upper(t, c, block))
    ensures n.entries[c].hash == t.keys[c]
  {
  }

  lemma InsertStores(n: map<nat, Node>, t: Tree, a: nat, x: Tree, key: nat, y: Tree)
    requires t.Inner? && a < |t.keys| == |t.kids| && t.block in n && NodeIs(n[t.block], Insert(t, a, x, key, y))
    requires Stores(n, x) && Stores(n, y) && forall j :: 0 <= j < |t.kids| && j != a ==> Stores(n, t.kids[j])
    ensures Stores(n, Insert(t, a, x, key, y))
  {
    var t' := Insert(t, a, x, key, y);
    forall j | 0 <= j < |t'.kids| ensures Stores(n, t'.kids[j]) {
      var i := if j > a then j - 1 else j;
      assert i == a || Stores(n, t.kids[i]);
    }
  }

  /** A kid that none of the changed blocks belongs to is still there. */
  lemma KidKept(m: map<nat, Node>, n: map<nat, Node>, t: Tree, j: nat, x: Tree, extra: nat)
    requires t.Inner? && j < |t.kids| && Stores(m, t) && Separate(t) && !On(t, extra) && Apart(x, t.kids[j])
    requires forall b :: SameNode(m, n, b) || b == t.block || b == x.block || b == extra
    ensures Stores(n, t.kids[j])
  {
    forall b | On(t.kids[j], b) ensures SameNode(m, n, b) {
      assert b != t.block && b != extra;
    }
    StoresKept(m, n, t.kids[j]);
  }

  lemma SplitKidStores(m: map<nat, Node>, n: map<nat, Node>, t: Tree, d: nat, a: nat, c: nat, extra: nat)
    requires Shape(t, d) && 1 < d && a < |t.keys| && Shape(t.kids[a], d - 1) && 0 < c < |t.kids[a].keys|
    requires Separate(t) && !On(t, extra) && Stores(m, t)
    requires t.block in n && NodeIs(n[t.block], SplitKid(t, a, c, extra))
    requires t.kids[a].block in n && NodeIs(n[t.kids[a].block], Lower(t.kids[a], c))
    requires extra in n && NodeIs(n[extra], Upper(t.kids[a], c, extra))
    requires forall b :: SameNode(m, n, b) || b == t.block || b == t.kids[a].block || b == extra
    ensures Stores(n, SplitKid(t, a, c, extra))
  {
    var x := t.kids[a];
    forall j | 0 <= j < |t.kids| && j != a ensures Stores(n, t.kids[j]) {
      assert if a < j then Apart(x, t.kids[j]) else Apart(t.kids[j], x);
      KidKept(m, n, t, j, x, extra);
    }
    GrandkidsKept(m, n, t, a, extra);
    InsertStores(n, t, a, Lower(x, c), x.keys[c], Upper(x, c, extra));
  }

  lemma GrandkidsKept(m: map<nat, Node>, n: map<nat, Node>, t: Tree, a: nat, extra: nat)
    requires t.Inner? && a < |t.kids| && t.kids[a].Inner? && Separate(t) && !On(t, extra) && Stores(m, t)
    requires forall b :: SameNode(m, n, b) || b == t.block || b == t.kids[a].block || b == extra
    ensures forall i :: 0 <= i < |t.kids[a].kids| ==> Stores(n, t.kids[a].kids[i])
  {
    var x := t.kids[a];
    assert Separate(x) && Stores(m, x);
    forall i | 0 <= i < |x.kids| ensures Stores(n, x.kids[i]) {
      forall b | On(x.kids[i], b) ensures SameNode(m, n, b) {
        assert On(x, b) && b != x.block;
        assert On(t, b) && b != t.block;
      }
      StoresKept(m, n, x.kids[i]);
    }
  }

  // ----- Splitting an index block in its place in the tree -----

  /** The tree in which the block below that of h, k levels down, is split at c. */
  function SplitAt(t: Tree, d: nat, h: nat, k: nat, c: nat, extra: nat): (t': Tree)
    requires Shape(t, d) && k + 1 < d && 0 < c < |Sub(t, d, h, k + 1).keys|
    ensures Shape(t', d)
  {
    SubStep(t, d, h, k);
    var s := Sub(t, d, h, k);
    var a := At(s.keys, h);
    SplitShape(s.kids[a], d - k - 1, c, extra);
    InsertShape(s, d - k, a, Lower(s.kids[a], c), s.kids[a].keys[c], Upper(s.kids[a], c, extra));
    Put(t, d, h, k, SplitKid(s, a, c, extra))
  }

  lemma {:induction false} SubStep(t: Tree, d: nat, h: nat, k: nat)
    requires Shape(t, d) && k < d
    ensures var s := Sub(t, d, h, k); s.Inner? && Shape(s, d - k) && Sub(t, d, h, k + 1) == s.kids[At(s.keys, h)]
    decreases k
  {
    if k > 0 {
      SubStep(t.kids[At(t.keys, h)], d - 1, h, k - 1);
    }
  }

  lemma {:induction false} SubPut(t: Tree, d: nat, h: nat, k: nat, x: Tree)
    requires Shape(t, d) && k <= d && Shape(x, d - k)
    ensures Sub(Put(t, d, h, k, x), d, h, k) == x
    decreases k
  {
    if k > 0 {
      SubPut(t.kids[At(t.keys, h)], d - 1, h, k - 1, x);
    }
  }

  lemma SubKeeps(t: Tree, d: nat, h: nat, k: nat, extra: nat, lo: nat, hi: nat)
    requires Shape(t, d) && k <= d && Ordered(t, lo, hi) && lo <= h < hi && Separate(t) && !On(t, extra)
    ensures var s := Sub(t, d, h, k);
            Ordered(s, Lo(t, d, h, k, lo), Hi(t, d, h, k, hi)) && Separate(s) && !On(s, extra)
  {
    SubOrdered(t, d, h, k, lo, hi);
    SubSeparate(t, d, h, k);
    if On(Sub(t, d, h, k), extra) {
      SubOn(t, d, h, k, extra);
    }
  }

  lemma PutKeeps(t: Tree, d: nat, h: nat, k: nat, x: Tree, extra: nat, lo: nat, hi: nat)
    requires Shape(t, d) && k <= d && Shape(x, d - k) && Ordered(t, lo, hi) && Separate(t) && !On(t, extra)
    requires Ordered(x, Lo(t, d, h, k, lo), Hi(t, d, h, k, hi)) && Separate(x) && Grown(Sub(t, d, h, k), x, extra)
    requires x.block == Sub(t, d, h, k).block
    ensures var t' := Put(t, d, h, k, x);
            Ordered(t', lo, hi) && Separate(t') && Grown(t, t', extra) && t'.block == t.block
  {
    PutOrdered(t, d, h, k, x, lo, hi);
    PutGrown(t, d, h, k, x, extra);
    PutSeparate(t, d, h, k, x, extra);
    PutBlock(t, d, h, k, x);
  }

  lemma SplitAtKeeps(t: Tree, d: nat, h: nat, k: nat, c: nat, extra: nat, lo: nat, hi: nat)
    requires Shape(t, d) && k + 1 < d && 0 < c < |Sub(t, d, h, k + 1).keys|
    requires Ordered(t, lo, hi) && lo <= h < hi && Separate(t) && !On(t, extra)
    ensures var t' := SplitAt(t, d, h, k, c, extra);
            Ordered(t', lo, hi) && Separate(t') && Grown(t, t', extra) && t'.block == t.block
  {
    SubStep(t, d, h, k);
    var s := Sub(t, d, h, k);
    var a := At(s.keys, h);
    var x := SplitKid(s, a, c, extra);
    SubKeeps(t, d, h, k, extra, lo, hi);
    SplitKidKeeps(s, d - k, a, c, extra, Lo(t, d, h, k, lo), Hi(t, d, h, k, hi));
    PutKeeps(t, d, h, k, x, extra, lo, hi);
  }

  lemma PutBlock(t: Tree, d: nat, h: nat, k: nat, x: Tree)
    requires Shape(t, d) && k <= d && Shape(x, d - k) && x.block == Sub(t, d, h, k).block
    ensures Put(t, d, h, k, x).block == t.block
  {
  }

  /** Splitting an index block leaves the leaf of every hash unchanged. */
  lemma SplitAtRoute(t: Tree, d: nat, h: nat, k: nat, c: nat, extra: nat, lo: nat, hi: nat, g: nat)
    requires Shape(t, d) && k + 1 < d && 0 < c < |Sub(t, d, h, k + 1).keys|
    requires Ordered(t, lo, hi) && lo <= h < hi && lo <= g < hi
    ensures Route(SplitAt(t, d, h, k, c, extra), d, g) == Route(t, d, g)
  {
    SubStep(t, d, h, k);
    var s := Sub(t, d, h, k);
    var a := At(s.keys, h);
    SubOrdered(t, d, h, k, lo, hi);
    SplitKidRoute(s, d - k, a, c, extra, Lo(t, d, h, k, lo), Hi(t, d, h, k, hi), g);
    PutRouteBoth(t, d, h, k, d - k, SplitKid(s, a, c, extra), lo, hi, g);
  }

  lemma {:induction false} PutSame(t: Tree, d: nat, h: nat, k: nat)
    requires Shape(t, d) && k <= d
    ensures Put(t, d, h, k, Sub(t, d, h, k)) == t
    decreases k
  {
    if k > 0 {
      var i := At(t.keys, h);
      PutSame(t.kids[i], d - 1, h, k - 1);
      assert t.kids[i := t.kids[i]] == t.kids;
    }
  }

  /** Of the two halves the one that h leads to is the next block of h. */
  lemma SplitAtNext(t: Tree, d: nat, h: nat, k: nat, c: nat, extra: nat, lo: nat, hi: nat)
    requires Shape(t, d) && k + 1 < d && 0 < c < |Sub(t, d, h, k + 1).keys| && Ordered(t, lo, hi) && lo <= h < hi
    ensures var x, y := Sub(t, d, h, k + 1), Sub(SplitAt(t, d, h, k, c, extra), d, h, k + 1);
            x.Inner? && |x.keys| == |x.kids| && y == if x.keys[c] <= h then Upper(x, c, extra) else Lower(x, c)
  {
    SubStep(t, d, h, k);
    var s, t' := Sub(t, d, h, k), SplitAt(t, d, h, k, c, extra);
    var a := At(s.keys, h);
    SubOrdered(t, d, h, k, lo, hi);
    var lo', hi' := Lo(t, d, h, k, lo), Hi(t, d, h, k, hi);
    SplitOrdered(s.kids[a], c, extra, Bound(s.keys, a, lo', hi'), Bound(s.keys, a + 1, lo', hi'));
    BoundsApart(Lower(s.kids[a], c), Bound(s.keys, a, lo', hi'), s.kids[a].keys[c]);
    BoundsApart(Upper(s.kids[a], c, extra), s.kids[a].keys[c], Bound(s.keys, a + 1, lo', hi'));
    AtWith(s.keys, a, s.kids[a].keys[c], lo', hi', h);
    SubPut(t, d, h, k, SplitKid(s, a, c, extra));
    SubStep(t', d, h, k);
  }

  lemma SplitAtStores(m: map<nat, Node>, n: map<nat, Node>, t: Tree, d: nat, h: nat, k: nat, c: nat, extra: nat)
    requires Shape(t, d) && k + 1 < d && 0 < c < |Sub(t, d, h, k + 1).keys| && Separate(t) && !On(t, extra) && Stores(m, t)
    requires var s, x := Sub(t, d, h, k), Sub(t, d, h, k + 1);
             Shape(s, d - k) && Shape(x, d - k - 1) && x == s.kids[At(s.keys, h)] &&
             s.block in n && NodeIs(n[s.block], SplitKid(s, At(s.keys, h), c, extra)) &&
             x.block in n && NodeIs(n[x.block], Lower(x, c)) && extra in n && NodeIs(n[extra], Upper(x, c, extra)) &&
             forall b :: SameNode(m, n, b) || b == s.block || b == x.block || b == extra
    ensures Stores(n, SplitAt(t, d, h, k, c, extra))
  {
    var s, x := Sub(t, d, h, k), Sub(t, d, h, k + 1);
    var a := At(s.keys, h);
    SubSeparate(t, d, h, k);
    SubStores(m, t, d, h, k);
    if On(s, extra) {
      SubOn(t, d, h, k, extra);
    }
    SplitKidStores(m, n, s, d - k, a, c, extra);
    assert On(s, s.block) && On(s.kids[a], x.block) && On(s, x.block);
    SplitShape(x, d - k - 1, c, extra);
    InsertShape(s, d - k, a, Lower(x, c), x.keys[c], Upper(x, c, extra));
    PutStores(m, n, t, d, h, k, SplitKid(s, a, c, extra));
  }

  // ----- A new leaf in its place in the tree -----

  lemma {:induction false} BoundStep(t: Tree, d: nat, h: nat, k: nat, lo: nat, hi: nat)
    requires Shape(t, d) && k < d && Shape(Sub(t, d, h, k), d - k)
    ensures var s := Sub(t, d, h, k);
            Lo(t, d, h, k + 1, lo) == Bound(s.keys, At(s.keys, h), Lo(t, d, h, k, lo), Hi(t, d, h, k, hi)) &&
            Hi(t, d, h, k + 1, hi) == Bound(s.keys, At(s.keys, h) + 1, Lo(t, d, h, k, lo), Hi(t, d, h, k, hi))
    decreases k
  {
    if k > 0 {
      var i := At(t.keys, h);
      BoundStep(t.kids[i], d - 1, h, k - 1, if i == 0 then lo else t.keys[i], if i + 1 < |t.keys| then t.keys[i + 1] else hi);
    }
  }

  /** The tree in which a new leaf with a key comes behind that of h. */
  function InsertAt(t: Tree, d: nat, h: nat, key: nat, extra: nat): (t': Tree)
    requires Shape(t, d) && 0 < d
    ensures Shape(t', d)
  {
    SubStep(t, d, h, d - 1);
    var s := Sub(t, d, h, d - 1);
    InsertShape(s, 1, At(s.keys, h), s.kids[At(s.keys, h)], key, Leaf(extra));
    Put(t, d, h, d - 1, InsertLeaf(s, At(s.keys, h), key, extra))
  }

  lemma InsertAtKeeps(t: Tree, d: nat, h: nat, key: nat, extra: nat, lo: nat, hi: nat)
    requires Shape(t, d) && 0 < d && Ordered(t, lo, hi) && lo <= h < hi && Separate(t) && !On(t, extra)
    requires Lo(t, d, h, d, lo) <= key <= Hi(t, d, h, d, hi)
    ensures var t' := InsertAt(t, d, h, key, extra);
            Ordered(t', lo, hi) && Separate(t') && Grown(t, t', extra) && t'.block == t.block
  {
    SubStep(t, d, h, d - 1);
    BoundStep(t, d, h, d - 1, lo, hi);
    var s := Sub(t, d, h, d - 1);
    var a := At(s.keys, h);
    var x := InsertLeaf(s, a, key, extra);
    SubKeeps(t, d, h, d - 1, extra, lo, hi);
    InsertLeafKeeps(s, a, key, extra, Lo(t, d, h, d - 1, lo), Hi(t, d, h, d - 1, hi));
    PutKeeps(t, d, h, d - 1, x, extra, lo, hi);
  }

  /** Only the hashes from the key on of those that went to the leaf of h go to the new leaf. */
  lemma InsertAtRoute(t: Tree, d: nat, h: nat, key: nat, extra: nat, lo: nat, hi: nat, g: nat)
    requires Shape(t, d) && 0 < d && Ordered(t, lo, hi) && lo <= h < hi && lo <= g < hi
    requires Lo(t, d, h, d, lo) <= key <= Hi(t, d, h, d, hi)
    ensures Route(InsertAt(t, d, h, key, extra), d, g) ==
            if Lo(t, d, h, d, lo) <= g < Hi(t, d, h, d, hi) && key <= g then extra else Route(t, d, g)
  {
    SubStep(t, d, h, d - 1);
    BoundStep(t, d, h, d - 1, lo, hi);
    var s := Sub(t, d, h, d - 1);
    var a := At(s.keys, h);
    var lo', hi' := Lo(t, d, h, d - 1, lo), Hi(t, d, h, d - 1, hi);
    SubOrdered(t, d, h, d - 1, lo, hi);
    LeafChoice(s, a, key, extra, lo', hi', g);
    PutRouteBoth(t, d, h, d - 1, 1, InsertLeaf(s, a, key, extra), lo, hi, g);
  }

  /** The route before and after a subtree is replaced. */
  lemma PutRouteBoth(t: Tree, d: nat, h: nat, k: nat, r: nat, x: Tree, lo: nat, hi: nat, g: nat)
    requires Shape(t, d) && k <= d && r == d - k && Shape(x, r) && Ordered(t, lo, hi) && lo <= h < hi && lo <= g < hi
    ensures Shape(Sub(t, d, h, k), r)
    ensures Lo(t, d, h, k, lo) <= g < Hi(t, d, h, k, hi) ==>
              Route(t, d, g) == Route(Sub(t, d, h, k), r, g) && Route(Put(t, d, h, k, x), d, g) == Route(x, r, g)
    ensures !(Lo(t, d, h, k, lo) <= g < Hi(t, d, h, k, hi)) ==> Route(Put(t, d, h, k, x), d, g) == Route(t, d, g)
  {
    PutRoute(t, d, h, k, x, lo, hi, g);
    PutRoute(t, d, h, k, Sub(t, d, h, k), lo, hi, g);
    PutSame(t, d, h, k);
  }

  /** Which leaf below an index block with one leaf more a hash goes to. */
  lemma LeafChoice(s: Tree, a: nat, key: nat, extra: nat, lo: nat, hi: nat, g: nat)
    requires Shape(s, 1) && a < |s.keys| && Ordered(s, lo, hi)
    requires Bound(s.keys, a, lo, hi) <= key <= Bound(s.keys, a + 1, lo, hi)
    ensures Shape(InsertLeaf(s, a, key, extra), 1)
    ensures lo <= g < hi ==>
              Route(InsertLeaf(s, a, key, extra), 1, g) ==
              if Bound(s.keys, a, lo, hi) <= g < Bound(s.keys, a + 1, lo, hi) && key <= g then extra else Route(s, 1, g)
    ensures !(lo <= g < hi) ==> !(Bound(s.keys, a, lo, hi) <= g < Bound(s.keys, a + 1, lo, hi))
  {
    InsertLeafRoute(s, a, key, extra, lo, hi, g);
    KidBounds(s.keys, a, lo, hi);
    if lo <= g < hi {
      AtBetween(s.keys, g, a, lo, hi);
    }
  }

  lemma AtBetween(keys: seq<nat>, g: nat, i: nat, lo: nat, hi: nat)
    requires i < |keys| && KeysInOrder(keys, lo, hi) && lo <= g < hi
    ensures At(keys, g) == i <==> Bound(keys, i, lo, hi) <= g < Bound(keys, i + 1, lo, hi)
  {
    AtHolds(keys, g);
    if Bound(keys, i, lo, hi) <= g < Bound(keys, i + 1, lo, hi) {
      AtIs(keys, g, i);
    }
  }

  lemma KidBounds(keys: seq<nat>, i: nat, lo: nat, hi: nat)
    requires i < |keys| && KeysInOrder(keys, lo, hi)
    ensures lo <= Bound(keys, i, lo, hi) && Bound(keys, i + 1, lo, hi) <= hi
  {
  }

  lemma InsertAtStores(m: map<nat, Node>, n: map<nat, Node>, t: Tree, d: nat, h: nat, key: nat, extra: nat)
    requires Shape(t, d) && 0 < d && Separate(t) && !On(t, extra) && Stores(m, t)
    requires var s := Sub(t, d, h, d - 1);
             Shape(s, 1) && s.block in n && NodeIs(n[s.block], InsertLeaf(s, At(s.keys, h), key, extra)) &&
             forall b :: SameNode(m, n, b) || b == s.block
    ensures Stores(n, InsertAt(t, d, h, key, extra))
  {
    var s := Sub(t, d, h, d - 1);
    var a := At(s.keys, h);
    SubStores(m, t, d, h, d - 1);
    InsertStores(n, s, a, s.kids[a], key, Leaf(extra));
    InsertShape(s, 1, a, s.kids[a], key, Leaf(extra));
    assert On(s, s.block);
    PutStores(m, n, t, d, h, d - 1, InsertLeaf(s, a, key, extra));
  }

  // ----- A new level -----

  /** The contents of the root move to a new block, to which the root leads. */
  function Deeper(t: Tree, block: nat): (t': Tree)
    requires t.Inner?
  {
    Inner(t.block, [0], [Inner(block, t.keys, t.kids)])
  }

  lemma DeeperRoute(t: Tree, d: nat, block: nat, g: nat)
    requires Shape(t, d) && 0 < d
    ensures Shape(Deeper(t, block), d + 1) && Route(Deeper(t, block), d + 1, g) == Route(t, d, g)
    ensures Sub(Deeper(t, block), d + 1, g, 1) == Inner(block, t.keys, t.kids)
  {
    var kid := Inner(block, t.keys, t.kids);
    assert Shape(kid, d);
    assert Route(kid, d, g) == Route(t, d, g);
  }

  lemma DeeperKeeps(t: Tree, d: nat, block: nat, lo: nat, hi: nat)
    requires Shape(t, d) && 0 < d && Ordered(t, lo, hi) && Separate(t) && !On(t, block)
    ensures Ordered(Deeper(t, block), lo, hi) && Separate(Deeper(t, block)) && Grown(t, Deeper(t, block), block)
  {
    var kid := Inner(block, t.keys, t.kids);
    forall i | 0 <= i < |t.kids| ensures !On(t.kids[i], block) {
    }
    assert Ordered(kid, lo, hi) && Separate(kid);
    forall b | On(kid, b) ensures b == block || (On(t, b) && b != t.block) {
    }
  }

  lemma DeeperStores(m: map<nat, Node>, n: map<nat, Node>, t: Tree, d: nat, block: nat, root: Node)
    requires Shape(t, d) && 0 < d && Stores(m, t) && Separate(t) && !On(t, block) && block < BLOCKS && t.block in m && root == m[t.block]
    requires forall b :: SameNode(m, n, b) || b == t.block || b == block
    requires block in n && t.block in n && n[block].entries == root.entries && root.limit <= n[block].limit
    requires n[t.block] == Node(root.limit, [Entry(root.entries[0].hash, block)])
    ensures Stores(n, Deeper(t, block))
  {
    KidsKept(m, n, t, block);
    DeeperNodes(root, n[block], n[t.block], t, block);
    assert Stores(n, Inner(block, t.keys, t.kids));
  }

  lemma DeeperNodes(root: Node, n1: Node, n0: Node, t: Tree, block: nat)
    requires NodeIs(root, t) && root.entries != [] && block < BLOCKS && n1.entries == root.entries && root.limit <= n1.limit
    requires n0 == Node(root.limit, [Entry(root.entries[0].hash, block)])
    ensures NodeIs(n1, Inner(block, t.keys, t.kids)) && NodeIs(n0, Deeper(t, block))
  {
  }

  lemma KidsKept(m: map<nat, Node>, n: map<nat, Node>, t: Tree, block: nat)
    requires t.Inner? && Stores(m, t) && Separate(t) && !On(t, block)
    requires forall b :: SameNode(m, n, b) || b == t.block || b == block
    ensures forall i :: 0 <= i < |t.kids| ==> Stores(n, t.kids[i])
  {
    forall i | 0 <= i < |t.kids| ensures Stores(n, t.kids[i]) {
      forall b | On(t.kids[i], b) ensures SameNode(m, n, b) {
        assert b != t.block && b != block;
      }
      StoresKept(m, n, t.kids[i]);
    }
  }

  // ----- Which hashes a leaf is for -----

  lemma {:induction false} RouteOn(t: Tree, d: nat, h: nat)
    requires Shape(t, d)
    ensures On(t, Route(t, d, h))
    decreases d
  {
    if d > 0 {
      RouteOn(t.kids[At(t.keys, h)], d - 1, h);
    }
  }

  /** Two hashes lead to the same leaf exactly if the one lies in the bounds of the leaf of the other. */
  lemma {:induction false} SameLeafIff(t: Tree, d: nat, h: nat, lo: nat, hi: nat, g: nat)
    requires Shape(t, d) && Ordered(t, lo, hi) && Separate(t) && lo <= h < hi && lo <= g < hi
    ensures Route(t, d, g) == Route(t, d, h) <==> Lo(t, d, h, d, lo) <= g < Hi(t, d, h, d, hi)
    decreases d
  {
    if d > 0 {
      var i, j := At(t.keys, h), At(t.keys, g);
      AtHolds(t.keys, h);
      AtHolds(t.keys, g);
      if i == j {
        SameLeafIff(t.kids[i], d - 1, h, Bound(t.keys, i, lo, hi), Bound(t.keys, i + 1, lo, hi), g);
      } else {
        PutElsewhere(t, d, h, d, lo, hi, g);
        RouteOn(t.kids[i], d - 1, h);
        RouteOn(t.kids[j], d - 1, g);
        assert if i < j then Apart(t.kids[i], t.kids[j]) else Apart(t.kids[j], t.kids[i]);
      }
    }
  }
}
