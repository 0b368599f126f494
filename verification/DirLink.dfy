/**
 Model of dx_link in libext2fs/link.c: a name is linked in a hashed directory. The leaf its hash leads to takes it;
 a leaf without room is split, after the index has been made to have room for one more leaf.
 */
module DirLink {
  import opened Bytes
  import opened DirBlock
  import opened HashSpans
  import opened HashTree
  import opened Htree
  import opened SplitLeaf

  // ----- Which entries may be in a leaf -----

  /**
   The entries of a leaf have names whose hashes lie between its bounds, except that below an odd lower bound there
   may be the hash it continues.
   */
  ghost predicate InRange(row: Row, lo: nat, hi: nat, h: HashFunction) {
    forall x <- Live(row) :: x.name != "" && lo - lo % 2 <= Hash(h, x.name) < hi
  }

  lemma {:induction false} AllNamed(row: Row)
    requires forall x <- Live(row) :: x.name != ""
    ensures NamedLive(row) == Live(row)
  {
    if row.Then? {
      forall x | x in Live(row.rest) ensures x.name != "" {
        assert x in Live(row);
      }
      AllNamed(row.rest);
      if row.first.inode != 0 {
        assert Live(row)[0] in Live(row);
      }
    }
  }

  lemma InWhole(xs: seq<Dirent>, ys: seq<Dirent>, all: seq<Dirent>)
    requires multiset(xs) + multiset(ys) == multiset(all)
    ensures forall x <- xs :: x in all
    ensures forall y <- ys :: y in all
  {
    forall x | x in xs ensures x in all {
      assert x in multiset(all);
    }
    forall y | y in ys ensures y in all {
      assert y in multiset(all);
    }
  }

  /** A leaf that is split becomes two whose entries are between the new bounds. */
  lemma KeyParts(row: Row, lo: nat, hi: nat, h: HashFunction, oldRow: Row, newRow: Row, key: nat)
    requires InRange(row, lo, hi, h) && Distributed(h, row, oldRow, newRow, key)
    ensures lo <= key <= hi && InRange(oldRow, lo, key, h) && InRange(newRow, key, hi, h)
    ensures multiset(Live(oldRow)) + multiset(Live(newRow)) == multiset(Live(row))
  {
    AllNamed(row);
    InWhole(Live(oldRow), Live(newRow), Live(row));
    assert Live(oldRow)[0] in Live(oldRow) && Live(newRow)[0] in Live(newRow);
  }

  lemma HashFits(h: HashFunction, name: string)
    ensures Hash(h, name) < U32
  {
  }

  // ----- What a directory holds -----

  ghost function LiveIn(rows: map<int, Row>, b: nat): (xs: seq<Dirent>) {
    if b in rows then Live(rows[b]) else []
  }

  /** All live entries of the leaves. */
  ghost function Contents(spans: seq<Span>, rows: map<int, Row>): (m: multiset<Dirent>) {
    if spans == [] then multiset{} else multiset(LiveIn(rows, spans[0].block)) + Contents(spans[1..], rows)
  }

  lemma {:induction false} ContentsConcat(a: seq<Span>, b: seq<Span>, rows: map<int, Row>)
    ensures Contents(a + b, rows) == Contents(a, rows) + Contents(b, rows)
  {
    if a == [] {
      assert a + b == b;
    } else {
      assert (a + b)[1..] == a[1..] + b;
      ContentsConcat(a[1..], b, rows);
    }
  }

  /** Leaves whose rows are the same have the same entries. */
  lemma {:induction false} ContentsKept(s: seq<Span>, rows: map<int, Row>, rows': map<int, Row>)
    requires forall i :: 0 <= i < |s| ==> LiveIn(rows', s[i].block) == LiveIn(rows, s[i].block)
    ensures Contents(s, rows') == Contents(s, rows)
  {
    if s != [] {
      ContentsKept(s[1..], rows, rows');
    }
  }

  lemma ContentsAround(before: seq<Span>, m: seq<Span>, behind: seq<Span>, rows: map<int, Row>)
    ensures Contents(before + m + behind, rows) == Contents(before, rows) + Contents(m, rows) + Contents(behind, rows)
  {
    ContentsConcat(before + m, behind, rows);
    ContentsConcat(before, m, rows);
  }

  /** A leaf on disk: its bytes are a well-formed row of entries that belong there. */
  ghost predicate FiledAt(s: Span, leaves: map<int, seq<char>>, rows: map<int, Row>, size: nat, csum: bool, h: HashFunction) {
    && s.block in leaves && s.block in rows && |leaves[s.block]| == size
    && Formed(leaves[s.block], rows[s.block], csum) && InRange(rows[s.block], s.lo, s.hi, h)
  }

  ghost predicate Filed(spans: seq<Span>, leaves: map<int, seq<char>>, rows: map<int, Row>, size: nat, csum: bool, h: HashFunction) {
    forall i :: 0 <= i < |spans| ==> FiledAt(spans[i], leaves, rows, size, csum, h)
  }

  /** None of the spans is of the block. */
  ghost predicate Without(s: seq<Span>, b: nat) {
    forall i :: 0 <= i < |s| ==> s[i].block != b
  }

  lemma AroundIsWithout(before: seq<Span>, m: Span, behind: seq<Span>)
    requires Distinct(before + [m] + behind)
    ensures Without(before, m.block) && Without(behind, m.block)
  {
    var s := before + [m] + behind;
    forall i | 0 <= i < |before| ensures before[i].block != m.block {
      assert s[i] == before[i] && s[|before|] == m;
    }
    forall i | 0 <= i < |behind| ensures behind[i].block != m.block {
      assert s[|before| + 1 + i] == behind[i] && s[|before|] == m;
    }
  }

  lemma FiledAround(before: seq<Span>, m: seq<Span>, behind: seq<Span>, leaves: map<int, seq<char>>, rows: map<int, Row>,
                    size: nat, csum: bool, h: HashFunction)
    ensures Filed(before + m + behind, leaves, rows, size, csum, h) <==>
            Filed(before, leaves, rows, size, csum, h) && Filed(m, leaves, rows, size, csum, h) &&
            Filed(behind, leaves, rows, size, csum, h)
  {
    var s := before + m + behind;
    if Filed(s, leaves, rows, size, csum, h) {
      forall i | 0 <= i < |before| ensures FiledAt(before[i], leaves, rows, size, csum, h) {
        assert s[i] == before[i];
      }
      forall i | 0 <= i < |m| ensures FiledAt(m[i], leaves, rows, size, csum, h) {
        assert s[|before| + i] == m[i];
      }
      forall i | 0 <= i < |behind| ensures FiledAt(behind[i], leaves, rows, size, csum, h) {
        assert s[|before| + |m| + i] == behind[i];
      }
    }
  }

  /** Only the leaf b and a block that was none of the leaves have changed. */
  ghost predicate ChangedOnly(leaves: map<int, seq<char>>, rows: map<int, Row>, leaves': map<int, seq<char>>, rows': map<int, Row>,
                              b: nat, extra: nat) {
    forall c: int :: c != b && c != extra ==>
      (c in leaves ==> c in leaves' && leaves'[c] == leaves[c]) && (c in rows <==> c in rows') && (c in rows ==> rows'[c] == rows[c])
  }

  lemma OthersKept(s: seq<Span>, leaves: map<int, seq<char>>, rows: map<int, Row>, leaves': map<int, seq<char>>, rows': map<int, Row>,
                   b: nat, extra: nat, size: nat, csum: bool, h: HashFunction)
    requires Without(s, b) && Without(s, extra) && ChangedOnly(leaves, rows, leaves', rows', b, extra)
    requires Filed(s, leaves, rows, size, csum, h)
    ensures Filed(s, leaves', rows', size, csum, h) && Contents(s, rows') == Contents(s, rows)
  {
    forall i | 0 <= i < |s| ensures FiledAt(s[i], leaves', rows', size, csum, h) {
      assert FiledAt(s[i], leaves, rows, size, csum, h);
    }
    ContentsKept(s, rows, rows');
  }

  /** The leaf m has become one or two others; all other leaves are as before. */
  lemma LeafReplaced(before: seq<Span>, m: Span, behind: seq<Span>, ms: seq<Span>, leaves: map<int, seq<char>>, rows: map<int, Row>,
                     leaves': map<int, seq<char>>, rows': map<int, Row>, extra: nat, size: nat, csum: bool, h: HashFunction)
    requires Distinct(before + [m] + behind) && Filed(before + [m] + behind, leaves, rows, size, csum, h)
    requires Without(before, extra) && Without(behind, extra)
    requires ChangedOnly(leaves, rows, leaves', rows', m.block, extra) && Filed(ms, leaves', rows', size, csum, h)
    ensures Filed(before + ms + behind, leaves', rows', size, csum, h)
    ensures Contents(before + ms + behind, rows') + multiset(LiveIn(rows, m.block)) ==
            Contents(before + [m] + behind, rows) + Contents(ms, rows')
  {
    AroundIsWithout(before, m, behind);
    FiledAround(before, [m], behind, leaves, rows, size, csum, h);
    OthersKept(before, leaves, rows, leaves', rows', m.block, extra, size, csum, h);
    OthersKept(behind, leaves, rows, leaves', rows', m.block, extra, size, csum, h);
    FiledAround(before, ms, behind, leaves', rows', size, csum, h);
    ContentsReplaced(before, m, behind, ms, rows, rows');
  }

  lemma ContentsReplaced(before: seq<Span>, m: Span, behind: seq<Span>, ms: seq<Span>, rows: map<int, Row>, rows': map<int, Row>)
    requires Contents(before, rows') == Contents(before, rows) && Contents(behind, rows') == Contents(behind, rows)
    ensures Contents(before + ms + behind, rows') + multiset(LiveIn(rows, m.block)) ==
            Contents(before + [m] + behind, rows) + Contents(ms, rows')
  {
    ContentsAround(before, [m], behind, rows);
    ContentsAround(before, ms, behind, rows');
    assert Contents([m], rows) == multiset(LiveIn(rows, m.block)) + Contents([], rows);
    Swapped(Contents(before, rows), Contents(ms, rows'), Contents(behind, rows), multiset(LiveIn(rows, m.block)));
  }

  lemma Swapped<T>(a: multiset<T>, m: multiset<T>, b: multiset<T>, n: multiset<T>)
    ensures (a + m + b) + n == (a + n + b) + m
  {
  }

  /** After a search for room in its row, a leaf holds the same entries and one more at most. */
  lemma RowInRange(row: Row, row': Row, xs: seq<Dirent>, at: nat, lo: nat, hi: nat, h: HashFunction)
    requires InRange(row, lo, hi, h) && Inserted(Live(row), xs, Live(row'), at)
    requires forall x <- xs :: x.name != "" && lo - lo % 2 <= Hash(h, x.name) < hi
    ensures InRange(row', lo, hi, h) && multiset(Live(row')) == multiset(Live(row)) + multiset(xs)
  {
    var s, t := Live(row), Live(row');
    InsertedTogether(s, xs, t, at);
    forall x | x in t ensures x in s || x in xs {
      assert x in multiset(t);
    }
  }

  lemma InsertedTogether<T>(s: seq<T>, xs: seq<T>, t: seq<T>, at: nat)
    requires Inserted(s, xs, t, at)
    ensures multiset(t) == multiset(s) + multiset(xs)
  {
    assert s == s[..at] + s[at..];
  }

  /** The leaf that a hash leads to is on disk, and the hash is between its bounds. */
  lemma LeafOfHash(t: Tree, d: nat, g: nat, leaves: map<int, seq<char>>, rows: map<int, Row>, size: nat, csum: bool, h: HashFunction)
    returns (before: seq<Span>, m: Span, behind: seq<Span>)
    requires Shape(t, d) && Ordered(t, 0, U32) && Separate(t) && g < U32
    requires Filed(Spans(t, d, 0, U32), leaves, rows, size, csum, h)
    ensures Spans(t, d, 0, U32) == before + [m] + behind && Distinct(before + [m] + behind)
    ensures m.block == Route(t, d, g) && m.lo <= g < m.hi && FiledAt(m, leaves, rows, size, csum, h)
  {
    before, behind := SpanOfHash(t, d, g, 0, U32);
    m := Span(Route(t, d, g), Lo(t, d, g, d, 0), Hi(t, d, g, d, U32));
    SubOrdered(t, d, g, d, 0, U32);
    SpansDistinct(t, d, 0, U32);
    FiledAround(before, [m], behind, leaves, rows, size, csum, h);
    assert FiledAt([m][0], leaves, rows, size, csum, h);
  }

  /** Entries that may come into a leaf. */
  ghost predicate MayEnter(xs: seq<Dirent>, m: Span, h: HashFunction) {
    forall x <- xs :: x.name != "" && m.lo - m.lo % 2 <= Hash(h, x.name) < m.hi
  }

  /** A leaf whose row has become another with the same entries and xs. */
  lemma RowReplaced(spans: seq<Span>, before: seq<Span>, m: Span, behind: seq<Span>, leaves: map<int, seq<char>>,
                    rows: map<int, Row>, leaf: seq<char>, row: Row, xs: seq<Dirent>, at: nat, size: nat, csum: bool, h: HashFunction)
    requires spans == before + [m] + behind && Distinct(spans) && Filed(spans, leaves, rows, size, csum, h)
    requires m.block in rows && Inserted(Live(rows[m.block]), xs, Live(row), at) && |leaf| == size && Formed(leaf, row, csum)
    requires InRange(rows[m.block], m.lo, m.hi, h)
    requires MayEnter(xs, m, h)
    ensures Filed(spans, leaves[m.block := leaf], rows[m.block := row], size, csum, h)
    ensures Contents(spans, rows[m.block := row]) == Contents(spans, rows) + multiset(xs)
  {
    var b, leaves', rows' := m.block, leaves[m.block := leaf], rows[m.block := row];
    RowInRange(rows[b], row, xs, at, m.lo, m.hi, h);
    AroundIsWithout(before, m, behind);
    assert FiledAt(m, leaves', rows', size, csum, h);
    LeafReplaced(before, m, behind, [m], leaves, rows, leaves', rows', b, size, csum, h);
    ContentsOne(m, rows');
    Cancel(Contents(spans, rows'), Contents(spans, rows), multiset(Live(rows[b])), multiset(xs));
  }

  lemma ContentsOne(m: Span, rows: map<int, Row>)
    ensures Contents([m], rows) == multiset(LiveIn(rows, m.block))
  {
    assert Contents([m][1..], rows) == multiset{};
  }

  lemma Cancel<T>(a: multiset<T>, b: multiset<T>, m: multiset<T>, xs: multiset<T>)
    requires a + m == b + (m + xs)
    ensures a == b + xs
  {
    forall x ensures a[x] == (b + xs)[x] {
      assert (a + m)[x] == (b + (m + xs))[x];
    }
  }

  lemma ExtraIsNew(t: Tree, d: nat, before: seq<Span>, m: Span, behind: seq<Span>, extra: nat)
    requires Shape(t, d) && !On(t, extra) && Spans(t, d, 0, U32) == before + [m] + behind
    ensures Without(before, extra) && Without(behind, extra) && m.block != extra
  {
    SpansOn(t, d, 0, U32);
    var s := before + [m] + behind;
    assert s[|before|] == m;
    forall i | 0 <= i < |before| ensures before[i].block != extra {
      assert s[i] == before[i];
    }
    forall i | 0 <= i < |behind| ensures behind[i].block != extra {
      assert s[|before| + 1 + i] == behind[i];
    }
  }

  /** What a map is after two updates. */
  ghost predicate Updated<T>(m: map<int, T>, m': map<int, T>, b: nat, u: T, extra: nat, v: T) {
    && b in m' && m'[b] == u && extra in m' && m'[extra] == v
    && forall c: int :: c != b && c != extra ==> (c in m <==> c in m') && (c in m ==> m'[c] == m[c])
  }

  lemma UpdatesAre<T>(m: map<int, T>, b: nat, u: T, extra: nat, v: T)
    requires b != extra
    ensures Updated(m, m[b := u][extra := v], b, u, extra, v)
  {
  }

  lemma HeldAt(s: Span, leaves: map<int, seq<char>>, rows: map<int, Row>, leaf: seq<char>, row: Row, size: nat, csum: bool,
               h: HashFunction)
    requires s.block in leaves && leaves[s.block] == leaf && s.block in rows && rows[s.block] == row
    requires |leaf| == size && Formed(leaf, row, csum) && InRange(row, s.lo, s.hi, h)
    ensures FiledAt(s, leaves, rows, size, csum, h)
  {
  }

  lemma TwoFiled(x: Span, y: Span, leaves: map<int, seq<char>>, rows: map<int, Row>, size: nat, csum: bool, h: HashFunction)
    requires FiledAt(x, leaves, rows, size, csum, h) && FiledAt(y, leaves, rows, size, csum, h)
    ensures Filed([x, y], leaves, rows, size, csum, h)
  {
  }

  lemma PartsPlaced(before: seq<Span>, m: Span, behind: seq<Span>, x: Span, y: Span, leaves: map<int, seq<char>>,
                    rows: map<int, Row>, leaves': map<int, seq<char>>, rows': map<int, Row>, size: nat, csum: bool, h: HashFunction)
    requires Distinct(before + [m] + behind) && Filed(before + [m] + behind, leaves, rows, size, csum, h)
    requires Without(before, y.block) && Without(behind, y.block) && m.block == x.block
    requires ChangedOnly(leaves, rows, leaves', rows', x.block, y.block) && Filed([x, y], leaves', rows', size, csum, h)
    requires Contents([x, y], rows') == multiset(LiveIn(rows, m.block))
    ensures Filed(before + [x, y] + behind, leaves', rows', size, csum, h)
    ensures Contents(before + [x, y] + behind, rows') == Contents(before + [m] + behind, rows)
  {
    LeafReplaced(before, m, behind, [x, y], leaves, rows, leaves', rows', y.block, size, csum, h);
    Even(Contents(before + [x, y] + behind, rows'), Contents(before + [m] + behind, rows), multiset(LiveIn(rows, m.block)));
  }

  lemma ContentsTwo(x: Span, y: Span, rows: map<int, Row>)
    ensures Contents([x, y], rows) == multiset(LiveIn(rows, x.block)) + multiset(LiveIn(rows, y.block))
  {
    ContentsConcat([x], [y], rows);
    ContentsOne(x, rows);
    ContentsOne(y, rows);
    assert [x] + [y] == [x, y];
  }

  lemma Even<T>(a: multiset<T>, b: multiset<T>, m: multiset<T>)
    requires a + m == b + m
    ensures a == b
  {
    Cancel(a, b, m, multiset{});
  }

  /** A leaf that has become two. */
  lemma LeafParted(t: Tree, t': Tree, d: nat, g: nat, b: nat, key: nat, extra: nat, leaves: map<int, seq<char>>,
                   rows: map<int, Row>, leaves': map<int, seq<char>>, rows': map<int, Row>,
                   oldLeaf: seq<char>, newLeaf: seq<char>, oldRow: Row, newRow: Row, size: nat, csum: bool, h: HashFunction)
    requires Shape(t, d) && 0 < d && Shape(t', d) && t' == InsertAt(t, d, g, key, extra) && b == Route(t, d, g) && b in rows
    requires Ordered(t, 0, U32) && Separate(t) && g < U32 && !On(t, extra)
    requires Filed(Spans(t, d, 0, U32), leaves, rows, size, csum, h)
    requires Updated(leaves, leaves', b, oldLeaf, extra, newLeaf) && Updated(rows, rows', b, oldRow, extra, newRow)
    requires |oldLeaf| == |newLeaf| == size && Formed(oldLeaf, oldRow, csum) && Formed(newLeaf, newRow, csum)
    requires Distributed(h, rows[b], oldRow, newRow, key)
    ensures Lo(t, d, g, d, 0) <= key <= Hi(t, d, g, d, U32)
    ensures Filed(Spans(t', d, 0, U32), leaves', rows', size, csum, h)
    ensures Contents(Spans(t', d, 0, U32), rows') == Contents(Spans(t, d, 0, U32), rows)
  {
    var before, behind := InsertAtSpans(t, d, g, key, extra, 0, U32);
    var m := Span(b, Lo(t, d, g, d, 0), Hi(t, d, g, d, U32));
    SpansDistinct(t, d, 0, U32);
    FiledAround(before, [m], behind, leaves, rows, size, csum, h);
    assert FiledAt([m][0], leaves, rows, size, csum, h);
    ExtraIsNew(t, d, before, m, behind, extra);
    KeyParts(rows[b], m.lo, m.hi, h, oldRow, newRow, key);
    var x, y := Span(b, m.lo, key), Span(extra, key, m.hi);
    HeldAt(x, leaves', rows', oldLeaf, oldRow, size, csum, h);
    HeldAt(y, leaves', rows', newLeaf, newRow, size, csum, h);
    TwoFiled(x, y, leaves', rows', size, csum, h);
    ContentsTwo(x, y, rows');
    PartsPlaced(before, m, behind, x, y, leaves, rows, leaves', rows', size, csum, h);
  }

  lemma InsertedNone<T>(s: seq<T>, t: seq<T>)
    requires t == s
    ensures Inserted(s, [], t, 0)
  {
    assert s[..0] + [] + s[0..] == s;
  }

  lemma LinkedRow(leaf: seq<char>, csum: bool, row: Row, row': Row, x: Link, y: Rec, at: nat, status: Status, m: Span, h: HashFunction)
    returns (xs: seq<Dirent>, at': nat)
    requires status == Linked || status == NoSpace
    requires status == Linked ==> Finished(leaf, csum, row, row', x, y, at)
    requires status == NoSpace ==> GaveUp(leaf, csum, row, row', x)
    requires x.name != "" && m.lo <= Hash(h, x.name) < m.hi
    ensures xs == if status == Linked then LiveOne(y) else []
    ensures Inserted(Live(row), xs, Live(row'), at') && MayEnter(xs, m, h) && Formed(leaf, row', csum)
    ensures status == Linked ==> IsEntry(y, x)
  {
    if status == Linked {
      xs, at' := LiveOne(y), at;
    } else {
      xs, at' := [], 0;
      InsertedNone(Live(row), Live(row'));
    }
  }

  method LinkLoaded(buf: array<char>, csum: bool, x: Link, ghost row: Row, ghost m: Span, ghost h: HashFunction)
    returns (status: Status, write: bool, ghost row': Row, ghost y: Rec, ghost xs: seq<Dirent>, ghost at: nat)
    requires TAIL <= buf.Length < U16 && 0 < |x.name| < 0x100 && x.inode < U32 && Formed(buf[..], row, csum)
    requires m.lo <= Hash(h, x.name) < m.hi
    modifies buf
    ensures status == Linked || status == NoSpace
    ensures status == Linked ==> IsEntry(y, x)
    ensures xs == if status == Linked then LiveOne(y) else []
    ensures Inserted(Live(row), xs, Live(row'), at) && MayEnter(xs, m, h) && Formed(buf[..], row', csum)
    ensures !write ==> buf[..] == old(buf[..])
    ensures Search(row, x) == Outcome(row', status == Linked) && (status == NoSpace ==> !Slack(row', Need(x)))
  {
    HoldsTotal(buf[..], 0, buf.Length - TailSize(csum), row);
    status, write, row', y, at := LinkBlock(buf, csum, x, row);
    xs, at := LinkedRow(buf[..], csum, row, row', x, y, at, status, m, h);
    if status == NoSpace {
      SearchFails(row, x);
    }
  }

  lemma WrittenOrNot(leaves: map<int, seq<char>>, b: nat, s: seq<char>, write: bool)
    requires b in leaves && (!write ==> s == leaves[b])
    ensures (if write then leaves[b := s] else leaves) == leaves[b := s]
  {
  }

  // ----- A leaf that cannot be split -----

  lemma {:induction false} AsManyItems(row: Row, pos: nat, h: HashFunction)
    ensures |MapOf(row, pos, h)| == |NamedLive(row)|
    decreases row
  {
    if row.Then? {
      AsManyItems(row.rest, pos + row.first.len, h);
    }
  }

  /** An item of the lowest hash is so long that all would be moved; or there is none. */
  ghost predicate Light(row: Row, h: HashFunction, size: nat) {
    MapOf(row, 0, h) == [] || exists m :: Lowest(MapOf(row, 0, h), m) && !Heavy(MapOf(row, 0, h), m, size)
  }

  /** A leaf has items exactly if it has entries. */
  lemma NoneLive(t: Tree, d: nat, g: nat, leaves: map<int, seq<char>>, rows: map<int, Row>, size: nat, csum: bool, h: HashFunction)
    requires Shape(t, d) && Ordered(t, 0, U32) && Separate(t) && g < U32
    requires Filed(Spans(t, d, 0, U32), leaves, rows, size, csum, h)
    ensures Route(t, d, g) in rows
    ensures MapOf(rows[Route(t, d, g)], 0, h) == [] <==> Live(rows[Route(t, d, g)]) == []
  {
    var before, m, behind := LeafOfHash(t, d, g, leaves, rows, size, csum, h);
    AllNamed(rows[m.block]);
    AsManyItems(rows[m.block], 0, h);
  }

  /** The one entry that is left in the old leaf still belongs there. */
  lemma LeftInRange(row: Row, oldRow: Row, newRow: Row, lo: nat, hi: nat, h: HashFunction)
    requires InRange(row, lo, hi, h) && Doubled(h, row, oldRow, newRow)
    ensures InRange(oldRow, lo, hi, h) && multiset(Live(newRow)) == multiset(Live(row))
  {
    AllNamed(row);
    var x := Live(newRow)[0];
    assert x in Live(newRow) && x in multiset(Live(newRow)) && x in Live(row);
  }

  /** All entries of the leaf b are in a new block as well, and one of them only is left in b. */
  lemma LeafDoubled(t: Tree, d: nat, g: nat, b: nat, extra: nat, leaves: map<int, seq<char>>, rows: map<int, Row>,
                    leaves': map<int, seq<char>>, rows': map<int, Row>, oldLeaf: seq<char>, newLeaf: seq<char>,
                    oldRow: Row, newRow: Row, size: nat, csum: bool, h: HashFunction)
    requires Shape(t, d) && Ordered(t, 0, U32) && Separate(t) && g < U32 && !On(t, extra) && b == Route(t, d, g) && b in rows
    requires Filed(Spans(t, d, 0, U32), leaves, rows, size, csum, h)
    requires Updated(leaves, leaves', b, oldLeaf, extra, newLeaf) && Updated(rows, rows', b, oldRow, extra, newRow)
    requires |oldLeaf| == size && Formed(oldLeaf, oldRow, csum) && Doubled(h, rows[b], oldRow, newRow)
    ensures Filed(Spans(t, d, 0, U32), leaves', rows', size, csum, h)
    ensures Contents(Spans(t, d, 0, U32), rows') + multiset(Live(newRow)) ==
            Contents(Spans(t, d, 0, U32), rows) + multiset(Live(oldRow))
  {
    var before, m, behind := LeafOfHash(t, d, g, leaves, rows, size, csum, h);
    ExtraIsNew(t, d, before, m, behind, extra);
    LeftInRange(rows[b], oldRow, newRow, m.lo, m.hi, h);
    HeldAt(m, leaves', rows', oldLeaf, oldRow, size, csum, h);
    LeafReplaced(before, m, behind, [m], leaves, rows, leaves', rows', extra, size, csum, h);
    ContentsOne(m, rows');
  }

  /** The leaves but b are in order. */
  ghost predicate FiledBut(spans: seq<Span>, b: nat, leaves: map<int, seq<char>>, rows: map<int, Row>, size: nat, csum: bool,
                           h: HashFunction) {
    forall i :: 0 <= i < |spans| && spans[i].block != b ==> FiledAt(spans[i], leaves, rows, size, csum, h)
  }

  lemma OthersFiled(t: Tree, d: nat, b: nat, extra: nat, leaves: map<int, seq<char>>, rows: map<int, Row>,
                    leaves': map<int, seq<char>>, oldLeaf: seq<char>, newLeaf: seq<char>, size: nat, csum: bool, h: HashFunction)
    requires Shape(t, d) && !On(t, extra) && Filed(Spans(t, d, 0, U32), leaves, rows, size, csum, h)
    requires Updated(leaves, leaves', b, oldLeaf, extra, newLeaf)
    ensures FiledBut(Spans(t, d, 0, U32), b, leaves', rows, size, csum, h)
  {
    var spans := Spans(t, d, 0, U32);
    SpansOn(t, d, 0, U32);
    forall i | 0 <= i < |spans| && spans[i].block != b ensures FiledAt(spans[i], leaves', rows, size, csum, h) {
      assert FiledAt(spans[i], leaves, rows, size, csum, h) && On(t, spans[i].block);
    }
  }

  method SplitBuffer(buf: array<char>, csum: bool, h: HashFunction, ghost row: Row)
    returns (split: bool, oldLeaf: seq<char>, newLeaf: seq<char>, key: nat, ghost oldRow: Row, ghost newRow: Row)
    requires Formed(buf[..], row, csum) && buf.Length < U16
    ensures |oldLeaf| == |newLeaf| == buf.Length
    ensures !split ==> Light(row, h, buf.Length) && Overlaid(newLeaf, oldLeaf, csum)
    ensures AllLight(MapOf(row, 0, h), buf.Length) ==> !split
    ensures split || MapOf(row, 0, h) != [] ==> Formed(oldLeaf, oldRow, csum) && Formed(newLeaf, newRow, csum)
    ensures split ==> Distributed(h, row, oldRow, newRow, key)
    ensures !split && MapOf(row, 0, h) != [] ==> Doubled(h, row, oldRow, newRow)
  {
    ghost var first;
    split, oldLeaf, newLeaf, key, oldRow, newRow, first := SplitLeaf.SplitLeaf(buf, csum, h, row);
  }

  /** The row of a leaf that could not be split, its block, and the new block. */
  datatype Ruin = Ruin(full: Row, leaf: nat, extra: nat)

  /** See Directory.Ruined. */
  ghost predicate RuinedAt(t: Tree, d: nat, leaves: map<int, seq<char>>, rows: map<int, Row>, size: nat, csum: bool,
                           h: HashFunction, was: multiset<Dirent>, r: Ruin) {
    && Shape(t, d) && !On(t, r.extra) && r.leaf in leaves && r.extra in leaves && Overlaid(leaves[r.extra], leaves[r.leaf], csum)
    && (if Live(r.full) == [] then
          Contents(Spans(t, d, 0, U32), rows) == was && FiledBut(Spans(t, d, 0, U32), r.leaf, leaves, rows, size, csum, h)
        else
          && Filed(Spans(t, d, 0, U32), leaves, rows, size, csum, h)
          && r.leaf in rows && r.extra in rows && Formed(leaves[r.extra], rows[r.extra], csum)
          && Doubled(h, r.full, rows[r.leaf], rows[r.extra])
          && Contents(Spans(t, d, 0, U32), rows) + multiset(Live(rows[r.extra])) == was + multiset(Live(rows[r.leaf])))
  }

  lemma WrittenOver(t: Tree, d: nat, g: nat, b: nat, extra: nat, leaves: map<int, seq<char>>, rows: map<int, Row>,
                    leaves': map<int, seq<char>>, rows': map<int, Row>, oldLeaf: seq<char>, newLeaf: seq<char>,
                    oldRow: Row, newRow: Row, size: nat, csum: bool, h: HashFunction)
    requires Shape(t, d) && Ordered(t, 0, U32) && Separate(t) && g < U32 && !On(t, extra) && b == Route(t, d, g) && b in rows
    requires Filed(Spans(t, d, 0, U32), leaves, rows, size, csum, h)
    requires |oldLeaf| == |newLeaf| == size && Overlaid(newLeaf, oldLeaf, csum)
    requires MapOf(rows[b], 0, h) != [] ==>
               Formed(oldLeaf, oldRow, csum) && Formed(newLeaf, newRow, csum) && Doubled(h, rows[b], oldRow, newRow)
    requires leaves' == leaves[b := oldLeaf][extra := newLeaf]
    requires rows' == if Live(rows[b]) == [] then rows else rows[b := oldRow][extra := newRow]
    ensures RuinedAt(t, d, leaves', rows', size, csum, h, Contents(Spans(t, d, 0, U32), rows), Ruin(rows[b], b, extra))
  {
    RouteOn(t, d, g);
    UpdatesAre(leaves, b, oldLeaf, extra, newLeaf);
    NoneLive(t, d, g, leaves, rows, size, csum, h);
    if Live(rows[b]) == [] {
      OthersFiled(t, d, b, extra, leaves, rows, leaves', oldLeaf, newLeaf, size, csum, h);
    } else {
      UpdatesAre(rows, b, oldRow, extra, newRow);
      LeafDoubled(t, d, g, b, extra, leaves, rows, leaves', rows', oldLeaf, newLeaf, oldRow, newRow, size, csum, h);
    }
  }

  /**
   What a growth came to: no level could be added, the index has been raised or widened, a leaf has been split, or it
   could not be.
   */
  datatype Growing = Full | Raised | Parted | Unparted

  /** The answers of `dx_link`; with NotSplit `dx_split_leaf` has come to a point from which on it is undefined. */
  datatype Answer = Entered | NoRoom | NotSplit

  /** The index block l levels down can take no entry more. */
  ghost predicate FullAt(nodes: map<nat, Node>, t: Tree, d: nat, g: nat, l: nat)
    requires Shape(t, d) && l < d
  {
    var b := Sub(t, d, g, l).block;
    b in nodes && |nodes[b].entries| >= nodes[b].limit
  }

  ghost predicate FullTo(nodes: map<nat, Node>, t: Tree, d: nat, g: nat)
    requires Shape(t, d)
  {
    forall l: nat :: l < d ==> FullAt(nodes, t, d, g, l)
  }

  class Directory {
    const csum: bool
    const blockSize: nat
    const hash: HashFunction
    const index: Index

    /** The leaf blocks by number, and the rows they hold. */
    var leaves: map<int, seq<char>>
    ghost var rows: map<int, Row>

    constructor (csum: bool, blockSize: nat, hash: HashFunction, index: Index, leaves: map<int, seq<char>>, ghost rows: map<int, Row>)
      requires TAIL <= blockSize < U16 && index.Valid()
      requires Filed(Spans(index.tree, index.levels, 0, U32), leaves, rows, blockSize, csum, hash)
      ensures Valid() && this.index == index && Entries() == Contents(Spans(index.tree, index.levels, 0, U32), rows)
    {
      this.csum, this.blockSize, this.hash, this.index := csum, blockSize, hash, index;
      this.leaves, this.rows := leaves, rows;
    }

    /** Every leaf of the index is well formed, and holds entries whose hashes it is for. */
    ghost predicate Valid()
      reads this, index
    {
      TAIL <= blockSize < U16 && index.Valid() &&
      Filed(Spans(index.tree, index.levels, 0, U32), leaves, rows, blockSize, csum, hash)
    }

    /** All live entries of the directory. */
    ghost function Entries(): (m: multiset<Dirent>)
      requires index.Valid()
      reads this, index
    {
      Contents(Spans(index.tree, index.levels, 0, U32), rows)
    }

    /** How many leaves the index has. */
    ghost function LeafCount(): (n: nat)
      requires index.Valid()
      reads this, index
    {
      |Spans(index.tree, index.levels, 0, U32)|
    }

    /**
     Every entry is found: it is in the leaf that a lookup of its hash leads to, or in one of the leaves behind it that
     follow with the key of that hash made odd.
     */
    lemma EntryFound(k: nat, x: Dirent) returns (first: nat)
      requires Valid()
      requires var spans := Spans(index.tree, index.levels, 0, U32); k < |spans| && x in LiveIn(rows, spans[k].block)
      ensures var spans, g := Spans(index.tree, index.levels, 0, U32), Hash(hash, x.name);
              first <= k && spans[first].block == Route(index.tree, index.levels, g) &&
              forall j :: first < j <= k ==> spans[j].lo == g + 1 && spans[j].lo % 2 == 1
    {
      var spans := Spans(index.tree, index.levels, 0, U32);
      assert FiledAt(spans[k], leaves, rows, blockSize, csum, hash);
      HashFits(hash, x.name);
      first := FiledIsFound(index.tree, index.levels, k, Hash(hash, x.name), 0, U32);
    }

    /** The leaf is read, and the name linked in the buffer. */
    method LinkInBuffer(b: nat, x: Link)
      returns (status: Status, buf: array<char>, write: bool, ghost s: seq<char>, ghost row: Row, ghost y: Rec)
      requires Valid() && 0 < |x.name| < 0x100 && x.inode < U32
      requires b == Route(index.tree, index.levels, Hash(hash, x.name))
      ensures (status == Linked || status == NoSpace) && (status == Linked ==> IsEntry(y, x))
      ensures Filed(Spans(index.tree, index.levels, 0, U32), leaves[b := s], rows[b := row], blockSize, csum, hash)
      ensures Contents(Spans(index.tree, index.levels, 0, U32), rows[b := row]) ==
              Entries() + multiset(if status == Linked then LiveOne(y) else [])
      ensures fresh(buf) && buf[..] == s && |s| == blockSize && Formed(s, row, csum)
      ensures b in leaves && b in rows && (!write ==> s == leaves[b])
      ensures Search(rows[b], x) == Outcome(row, status == Linked) && (status == NoSpace ==> !Slack(row, Need(x)))
    {
      ghost var spans := Spans(index.tree, index.levels, 0, U32);
      HashFits(hash, x.name);
      ghost var before, m, behind := LeafOfHash(index.tree, index.levels, Hash(hash, x.name), leaves, rows, blockSize, csum, hash);
      buf := LoadBlock(leaves[b]);
      ghost var xs, at;
      status, write, row, y, xs, at := LinkLoaded(buf, csum, x, rows[b], m, hash);
      s := buf[..];
      RowReplaced(spans, before, m, behind, leaves, rows, s, row, xs, at, blockSize, csum, hash);
    }

    /** `add_dirent_to_buf`: the leaf takes the name if it has room, and is written if it has changed. */
    method AddToLeaf(b: nat, x: Link) returns (status: Status, buf: array<char>, ghost y: Rec)
      requires Valid() && 0 < |x.name| < 0x100 && x.inode < U32
      requires b == Route(index.tree, index.levels, Hash(hash, x.name))
      modifies `leaves, `rows
      ensures Valid() && (status == Linked || status == NoSpace) && (status == Linked ==> IsEntry(y, x))
      ensures Entries() == old(Entries()) + multiset(if status == Linked then LiveOne(y) else [])
      ensures b in rows && fresh(buf) && buf.Length == blockSize && Formed(buf[..], rows[b], csum)
      ensures old(b in rows) && Search(old(rows[b]), x) == Outcome(rows[b], status == Linked)
      ensures status == NoSpace ==> !Slack(rows[b], Need(x))
    {
      var write;
      ghost var s, row;
      status, buf, write, s, row, y := LinkInBuffer(b, x);
      WrittenOrNot(leaves, b, s, write);
      leaves := if write then leaves[b := buf[..]] else leaves;
      rows := rows[b := row];
    }

    /** The frame is that above the leaf b of the hash g, and a new leaf can come into it. */
    ghost predicate CanInsert(f: Frame, block: nat, b: nat, g: nat)
      requires index.Valid()
      reads this, index
    {
      && g < U32 && FrameIs(f, index.nodes, index.tree, index.levels, g, index.levels - 1) && HasRoom(f.node)
      && block < index.size && !On(index.tree, block) && b == Route(index.tree, index.levels, g) && b in rows
    }

    /**
     What is on disk when a leaf could not be split: the new block, which is not in the index, has all its entries, and
     the leaf still has one of the lowest hash; everything else is in order. If it had no entries, both blocks are what
     the buffer happened to hold.
     */
    ghost predicate Ruined(was: multiset<Dirent>, r: Ruin)
      reads this, index
    {
      TAIL <= blockSize < U16 && index.Valid() && r.extra < index.size &&
      RuinedAt(index.tree, index.levels, leaves, rows, blockSize, csum, hash, was, r)
    }

    /** `dx_split_leaf`: the leaf in the buffer is split, and the new one comes into the index. */
    method PartLeaf(f: Frame, block: nat, buf: array<char>, b: nat, ghost g: nat) returns (split: bool)
      requires Valid() && CanInsert(f, block, b, g) && buf.Length == blockSize && Formed(buf[..], rows[b], csum)
      modifies `leaves, `rows, index`nodes, index`tree
      ensures split ==> Valid() && Entries() == old(Entries()) && LeafCount() == old(LeafCount()) + 1
      ensures !split ==> Ruined(old(Entries()), Ruin(old(rows[b]), b, block)) && Light(old(rows[b]), hash, blockSize)
      ensures !split ==> index.nodes == old(index.nodes) && index.tree == old(index.tree)
      ensures AllLight(MapOf(old(rows[b]), 0, hash), blockSize) ==> !split
    {
      var oldLeaf, newLeaf, key;
      ghost var oldRow, newRow;
      split, oldLeaf, newLeaf, key, oldRow, newRow := SplitBuffer(buf, csum, hash, rows[b]);
      if split {
        PlaceParts(f, block, b, key, oldLeaf, newLeaf, oldRow, newRow, g);
      } else {
        WriteOver(block, b, oldLeaf, newLeaf, oldRow, newRow, g);
      }
    }

    /** Both blocks are written, with what they should not hold. */
    method WriteOver(block: nat, b: nat, oldLeaf: seq<char>, newLeaf: seq<char>, ghost oldRow: Row, ghost newRow: Row, ghost g: nat)
      requires Valid() && g < U32 && block < index.size && !On(index.tree, block)
      requires b == Route(index.tree, index.levels, g) && b in rows
      requires |oldLeaf| == |newLeaf| == blockSize && Overlaid(newLeaf, oldLeaf, csum)
      requires MapOf(rows[b], 0, hash) != [] ==>
                 Formed(oldLeaf, oldRow, csum) && Formed(newLeaf, newRow, csum) && Doubled(hash, rows[b], oldRow, newRow)
      modifies `leaves, `rows
      ensures Ruined(old(Entries()), Ruin(old(rows[b]), b, block))
    {
      ghost var l, r := leaves, rows;
      leaves := leaves[b := oldLeaf][block := newLeaf];
      rows := if Live(rows[b]) == [] then rows else rows[b := oldRow][block := newRow];
      WrittenOver(index.tree, index.levels, g, b, block, l, r, leaves, rows, oldLeaf, newLeaf, oldRow, newRow, blockSize, csum, hash);
    }

    method InsertInto(f: Frame, block: nat, key: nat, leaves': map<int, seq<char>>, ghost rows': map<int, Row>,
                      ghost b: nat, ghost g: nat)
      requires Valid() && CanInsert(f, block, b, g)
      requires Lo(index.tree, index.levels, g, index.levels, 0) <= key <= Hi(index.tree, index.levels, g, index.levels, U32)
      requires Filed(Spans(InsertAt(index.tree, index.levels, g, key, block), index.levels, 0, U32), leaves', rows',
                     blockSize, csum, hash)
      modifies `leaves, `rows, index`nodes, index`tree
      ensures Valid() && Entries() == Contents(Spans(InsertAt(old(index.tree), index.levels, g, key, block), index.levels, 0, U32), rows')
      ensures LeafCount() == old(LeafCount()) + 1
    {
      ghost var before, behind := InsertAtSpans(index.tree, index.levels, g, key, block, 0, U32);
      index.AddLeaf(f, key, block, g);
      leaves, rows := leaves', rows';
    }

    /** Both parts are written, and the new one comes into the index. */
    method PlaceParts(f: Frame, block: nat, b: nat, key: nat, oldLeaf: seq<char>, newLeaf: seq<char>,
                      ghost oldRow: Row, ghost newRow: Row, ghost g: nat)
      requires Valid() && CanInsert(f, block, b, g) && Distributed(hash, rows[b], oldRow, newRow, key)
      requires |oldLeaf| == |newLeaf| == blockSize && Formed(oldLeaf, oldRow, csum) && Formed(newLeaf, newRow, csum)
      modifies `leaves, `rows, index`nodes, index`tree
      ensures Valid() && Entries() == old(Entries()) && LeafCount() == old(LeafCount()) + 1
    {
      PartedRight(f, block, b, key, oldLeaf, newLeaf, oldRow, newRow, g);
      InsertInto(f, block, key, leaves[b := oldLeaf][block := newLeaf], rows[b := oldRow][block := newRow], b, g);
    }

    lemma PartedRight(f: Frame, block: nat, b: nat, key: nat, oldLeaf: seq<char>, newLeaf: seq<char>, oldRow: Row, newRow: Row,
                      g: nat)
      requires Valid() && CanInsert(f, block, b, g) && Distributed(hash, rows[b], oldRow, newRow, key)
      requires |oldLeaf| == |newLeaf| == blockSize && Formed(oldLeaf, oldRow, csum) && Formed(newLeaf, newRow, csum)
      ensures Lo(index.tree, index.levels, g, index.levels, 0) <= key <= Hi(index.tree, index.levels, g, index.levels, U32)
      ensures Filed(Spans(InsertAt(index.tree, index.levels, g, key, block), index.levels, 0, U32),
                    leaves[b := oldLeaf][block := newLeaf], rows[b := oldRow][block := newRow], blockSize, csum, hash)
      ensures Contents(Spans(InsertAt(index.tree, index.levels, g, key, block), index.levels, 0, U32),
                       rows[b := oldRow][block := newRow]) == Entries()
    {
      var t, d := index.tree, index.levels;
      RouteOn(t, d, g);
      UpdatesAre(leaves, b, oldLeaf, block, newLeaf);
      UpdatesAre(rows, b, oldRow, block, newRow);
      LeafParted(t, InsertAt(t, d, g, key, block), d, g, b, key, block, leaves, rows, leaves[b := oldLeaf][block := newLeaf],
                 rows[b := oldRow][block := newRow], oldLeaf, newLeaf, oldRow, newRow, blockSize, csum, hash);
    }

    /** The frames are those of the hash. */
    ghost predicate Looked(frames: seq<Frame>, g: nat)
      requires index.Valid()
      reads index
    {
      g < U32 && |frames| == index.levels && FramesAre(frames, index.nodes, index.tree, index.levels, g)
    }

    /** Looking up and trying to add. */
    method TryToLink(x: Link) returns (status: Status, frames: seq<Frame>, b: nat, buf: array<char>, ghost y: Rec)
      requires Valid() && 0 < |x.name| < 0x100 && x.inode < U32
      modifies `leaves, `rows
      ensures Valid() && (status == Linked || status == NoSpace) && (status == Linked ==> IsEntry(y, x))
      ensures Entries() == old(Entries()) + multiset(if status == Linked then LiveOne(y) else [])
      ensures Looked(frames, Hash(hash, x.name)) && b == Route(index.tree, index.levels, Hash(hash, x.name))
      ensures b in rows && fresh(buf) && buf.Length == blockSize && Formed(buf[..], rows[b], csum)
      ensures old(b in rows) && Search(old(rows[b]), x) == Outcome(rows[b], status == Linked)
      ensures status == NoSpace ==> !Slack(rows[b], Need(x))
    {
      HashFits(hash, x.name);
      var err;
      err, frames := index.Lookup(Hash(hash, x.name));
      var f := frames[|frames| - 1];
      b := Block(f.node.entries[f.at]);
      status, buf, y := AddToLeaf(b, x);
    }

    /** The frame above the leaf has room: the leaf is split. */
    method GrowLeaf(f: Frame, block: nat, b: nat, buf: array<char>, ghost g: nat) returns (what: Growing)
      requires Valid() && CanInsert(f, block, b, g) && buf.Length == blockSize && Formed(buf[..], rows[b], csum)
      modifies `leaves, `rows, index`nodes, index`tree
      ensures what == Parted || what == Unparted
      ensures Grown(old(Entries()), old(LeafCount()), what, Ruin(old(rows[b]), b, block), g)
      ensures AllLight(MapOf(old(rows[b]), 0, hash), blockSize) ==> what == Unparted
    {
      var split := PartLeaf(f, block, buf, b, g);
      what := if split then Parted else Unparted;
    }

    /** Nothing is lost, unless a leaf could not be split; there is one leaf more exactly if one has been. */
    ghost predicate Grown(was: multiset<Dirent>, count: nat, what: Growing, r: Ruin, g: nat)
      reads this, index
    {
      && index.Valid() && LeafCount() == (if what == Parted then count + 1 else count)
      && (what != Unparted ==> Valid() && Entries() == was)
      && (what == Unparted ==> Ruined(was, r) && r.leaf == Route(index.tree, index.levels, g) && Light(r.full, hash, blockSize))
    }

    /** The index grows, or has room for a leaf; the leaves stay. */
    method GrowIndex(frames: seq<Frame>, ghost b: nat, ghost g: nat) returns (growth: Growth, ghost level: nat)
      requires Valid() && Looked(frames, g) && index.size < BLOCKS && b == Route(index.tree, index.levels, g) && b in rows
      modifies index`nodes, index`levels, index`size, index`tree
      ensures Valid() && Entries() == old(Entries())
      ensures index.size == old(index.size) + if growth == NoLevel then 0 else 1
      ensures growth == NoLevel <==> Deepest(frames) == -1 && old(index.levels) == index.maxLevels
      ensures growth.LeafRoom? <==> Deepest(frames) == old(index.levels) - 1
      ensures growth.LeafRoom? ==> growth.block == old(index.size) && CanInsert(frames[|frames| - 1], growth.block, b, g)
      ensures growth == NoLevel ==> index.levels == old(index.levels) && index.nodes == old(index.nodes) && index.tree == old(index.tree)
      ensures LeafCount() == old(LeafCount())
      ensures growth == Taller ==> level > Deepest(frames) && 0 < level < index.levels &&
                                   RoomAt(index.nodes, index.tree, index.levels, g, level)
    {
      level := if Deepest(frames) == -1 then 1 else Deepest(frames) + 1;
      growth := index.GrowTree(frames, g);
    }

    /** `dx_grow_tree`. */
    method Grow(frames: seq<Frame>, b: nat, buf: array<char>, ghost g: nat) returns (what: Growing, ghost level: nat)
      requires Valid() && Looked(frames, g) && index.size < BLOCKS && b == Route(index.tree, index.levels, g) && b in rows
      requires buf.Length == blockSize && Formed(buf[..], rows[b], csum)
      modifies `leaves, `rows, index`nodes, index`levels, index`size, index`tree
      ensures Grown(old(Entries()), old(LeafCount()), what, Ruin(old(rows[b]), b, old(index.size)), g)
      ensures index.size == old(index.size) + if what == Full then 0 else 1
      ensures what == Full <==> Deepest(frames) == -1 && old(index.levels) == index.maxLevels
      ensures what == Parted || what == Unparted <==> Deepest(frames) == old(index.levels) - 1
      ensures Deepest(frames) == old(index.levels) - 1 && AllLight(MapOf(old(rows[b]), 0, hash), blockSize) ==> what == Unparted
      ensures what == Raised ==> level > Deepest(frames) && 0 < level < index.levels &&
                                 RoomAt(index.nodes, index.tree, index.levels, g, level)
      ensures what == Full ==> rows == old(rows) && index.levels == old(index.levels) &&
                               index.nodes == old(index.nodes) && index.tree == old(index.tree)
    {
      var growth;
      growth, level := GrowIndex(frames, b, g);
      if growth.LeafRoom? {
        what := GrowLeaf(frames[|frames| - 1], growth.block, b, buf, g);
      } else {
        what := if growth == NoLevel then Full else Raised;
      }
    }

    /** A block with room on the way is not above the deepest. */
    lemma RoomSeen(frames: seq<Frame>, g: nat, level: nat)
      requires index.Valid() && Looked(frames, g) && level < index.levels
      requires RoomAt(index.nodes, index.tree, index.levels, g, level)
      ensures level <= Deepest(frames)
    {
      assert FrameIs(frames[level], index.nodes, index.tree, index.levels, g, level);
    }

    /**
     Before a try: as many blocks are free as tries are left; and as long as no leaf has been split, every try has
     brought room in the index a level further down.
     */
    ghost predicate Trying(restart: nat, level: nat, parted: bool, g: nat)
      requires index.Valid()
      reads index
    {
      && index.size + index.maxLevels + 1 - restart <= BLOCKS && restart <= index.maxLevels
      && (!parted && restart > 0 ==>
            restart <= level < index.levels && RoomAt(index.nodes, index.tree, index.levels, g, level))
    }

    /** The leaf that x leads to has no room, and cannot be split, though there would be room for one more leaf. */
    ghost predicate Stuck(x: Link)
      reads this, index
    {
      index.Valid() &&
      var g := Hash(hash, x.name);
      var b := Route(index.tree, index.levels, g);
      b in rows && !Search(rows[b], x).done && AllLight(MapOf(Search(rows[b], x).row, 0, hash), blockSize) && RoomAbove(g)
    }

    /** The index block above the leaf has room. */
    ghost predicate RoomAbove(g: nat)
      requires index.Valid()
      reads index
    {
      RoomAt(index.nodes, index.tree, index.levels, g, index.levels - 1)
    }

    /** A leaf for which it is so. */
    lemma StuckOn(x: Link, a: string, b: string)
      requires Valid() && blockSize == 1024 && |a| == |x.name| == 255 && |b| == 1 && Hash(hash, a) < Hash(hash, b)
      requires var g := Hash(hash, x.name);
               var leaf := Route(index.tree, index.levels, g);
               leaf in rows && rows[leaf] == StuckRow(a, b) && RoomAbove(g)
      ensures Stuck(x)
    {
      StuckExample(hash, a, b, x);
    }

    /** What NotSplit comes to: the leaf of x had no room for it, and was not to be split. */
    ghost predicate RuinedFor(was: multiset<Dirent>, x: Link, r: Ruin)
      reads this, index
    {
      Ruined(was, r) && r.leaf == Route(index.tree, index.levels, Hash(hash, x.name)) &&
      !Slack(r.full, Need(x)) && Light(r.full, hash, blockSize)
    }

    /** What the directory is after an answer: the new entry is that of x. */
    ghost predicate Answered(was: multiset<Dirent>, x: Link, what: Answer, y: Rec, r: Ruin)
      reads this, index
    {
      && index.Valid() && (what == Entered ==> IsEntry(y, x))
      && (what != NotSplit ==> Valid() && Entries() == was + multiset(if what == Entered then LiveOne(y) else []))
      && (what == NotSplit ==> RuinedFor(was, x, r))
    }

    /** Without growing, the leaf of x has a place for it. */
    ghost predicate HasPlace(x: Link)
      reads this, index
    {
      index.Valid() &&
      var b := Route(index.tree, index.levels, Hash(hash, x.name));
      b in rows && Search(rows[b], x).done
    }

    /**
     Why there is no room after so many growths: the leaf has none; and there have been as many growths as there are
     levels, or all index blocks on the way are full and no level can be added.
     */
    ghost predicate Refused(x: Link, growths: int)
      reads this, index
    {
      index.Valid() &&
      var g := Hash(hash, x.name);
      var b := Route(index.tree, index.levels, g);
      b in rows && !Slack(rows[b], Need(x)) && (growths >= index.levels || AllFull(g))
    }

    ghost predicate AllFull(g: nat)
      requires index.Valid()
      reads index
    {
      index.levels == index.maxLevels && FullTo(index.nodes, index.tree, index.levels, g)
    }

    /** Without room in any frame there is none on the way. */
    lemma NoneDeep(frames: seq<Frame>, g: nat)
      requires index.Valid() && Looked(frames, g) && Deepest(frames) == -1 && index.levels == index.maxLevels
      ensures AllFull(g)
    {
      forall l: nat | l < index.levels ensures FullAt(index.nodes, index.tree, index.levels, g, l) {
        assert FrameIs(frames[l], index.nodes, index.tree, index.levels, g, l);
      }
    }

    /** After a try without success. */
    method MakeRoom(x: Link, frames: seq<Frame>, b: nat, buf: array<char>, restart: nat, ghost parted: bool)
      returns (again: bool, what: Answer, ghost level: nat, ghost parted': bool, ghost r: Ruin)
      requires Valid() && Looked(frames, Hash(hash, x.name)) && b == Route(index.tree, index.levels, Hash(hash, x.name))
      requires b in rows && !Slack(rows[b], Need(x)) && restart < index.levels
      requires buf.Length == blockSize && Formed(buf[..], rows[b], csum)
      requires index.size + index.maxLevels + 1 - restart <= BLOCKS && (!parted && restart > 0 ==> restart <= Deepest(frames))
      modifies `leaves, `rows, index`nodes, index`levels, index`size, index`tree
      ensures what != Entered && (what == NotSplit ==> !again) && Answered(old(Entries()), x, what, Free(0), r)
      ensures Deepest(frames) == old(index.levels) - 1 && AllLight(MapOf(old(rows[b]), 0, hash), blockSize) ==> what == NotSplit
      ensures again ==> restart < index.maxLevels && Trying(restart + 1, level, parted', Hash(hash, x.name))
      ensures !again && what == NoRoom ==> Refused(x, restart) && (!parted' ==> AllFull(Hash(hash, x.name)))
      ensures index.size == old(index.size) + if again || what == NotSplit then 1 else 0
      ensures LeafCount() >= old(LeafCount()) && (parted' <==> parted || LeafCount() > old(LeafCount()))
    {
      var grown;
      if Deepest(frames) == -1 && index.levels == index.maxLevels {
        NoneDeep(frames, Hash(hash, x.name));
      }
      r := Ruin(rows[b], b, index.size);
      grown, level := Grow(frames, b, buf, Hash(hash, x.name));
      parted' := parted || grown == Parted;
      again := grown == Raised || grown == Parted;
      what := if grown == Unparted then NotSplit else NoRoom;
    }

    /** After a try: there is to be another one, or there is a reason for the answer. */
    ghost predicate Decided(x: Link, restart: nat, again: bool, what: Answer, level: nat, parted: bool)
      reads this, index
    {
      && index.Valid()
      && (again ==> what == NoRoom && restart < index.maxLevels + 1 && Trying(restart + 1, level, parted, Hash(hash, x.name)))
      && (!again && what == NoRoom ==> Refused(x, restart) && (!parted ==> AllFull(Hash(hash, x.name))))
    }

    /** The leaf has no room: unless it has been tried often enough, room is made. */
    method Retry(x: Link, frames: seq<Frame>, b: nat, buf: array<char>, restart: nat, ghost level: nat, ghost parted: bool)
      returns (again: bool, what: Answer, ghost level': nat, ghost parted': bool, ghost r: Ruin)
      requires Valid() && Looked(frames, Hash(hash, x.name)) && b == Route(index.tree, index.levels, Hash(hash, x.name))
      requires b in rows && !Slack(rows[b], Need(x)) && Trying(restart, level, parted, Hash(hash, x.name))
      requires buf.Length == blockSize && Formed(buf[..], rows[b], csum)
      modifies `leaves, `rows, index`nodes, index`levels, index`size, index`tree
      ensures what != Entered && Answered(old(Entries()), x, what, Free(0), r)
      ensures restart == 0 && AllLight(MapOf(old(rows[b]), 0, hash), blockSize) && old(RoomAbove(Hash(hash, x.name))) ==> what == NotSplit
      ensures Decided(x, restart, again, what, level', parted')
      ensures index.size == old(index.size) + if again || what == NotSplit then 1 else 0
      ensures LeafCount() >= old(LeafCount()) && (parted' <==> parted || LeafCount() > old(LeafCount()))
    {
      again, what, level', parted', r := false, NoRoom, level, parted, Ruin(End, 0, 0);
      if !parted && restart > 0 {
        RoomSeen(frames, Hash(hash, x.name), level);
      }
      if restart < index.levels {
        if RoomAbove(Hash(hash, x.name)) {
          RoomSeen(frames, Hash(hash, x.name), index.levels - 1);
        }
        again, what, level', parted', r := MakeRoom(x, frames, b, buf, restart, parted);
      }
    }

    /** One try of `dx_link`. */
    method Try(x: Link, restart: nat, ghost level: nat, ghost parted: bool)
      returns (again: bool, what: Answer, ghost y: Rec, ghost level': nat, ghost parted': bool, ghost r: Ruin)
      requires Valid() && 0 < |x.name| < 0x100 && x.inode < U32 && Trying(restart, level, parted, Hash(hash, x.name))
      modifies `leaves, `rows, index`nodes, index`levels, index`size, index`tree
      ensures Answered(old(Entries()), x, what, y, r)
      ensures restart == 0 && old(Stuck(x)) ==> what == NotSplit
      ensures Decided(x, restart, again, what, level', parted')
      ensures what == Entered <==> old(HasPlace(x))
      ensures index.size == old(index.size) + if again || what == NotSplit then 1 else 0
      ensures LeafCount() >= old(LeafCount()) && (parted' <==> parted || LeafCount() > old(LeafCount()))
    {
      again, what, level', parted', r := false, Entered, level, parted, Ruin(End, 0, 0);
      var status, frames, b, buf;
      ghost var was := Entries();
      status, frames, b, buf, y := TryToLink(x);
      if status != Linked {
        assert Entries() == was;
        again, what, level', parted', r := Retry(x, frames, b, buf, restart, level, parted);
      }
    }

    /**
     `dx_link`. The name is linked, and nothing else changes; or nothing changes at all. Either way the index and all
     leaves stay in order, so that every entry can be found. The index grows only if the leaf has no place. Room is refused
     only if the leaf has none then, and if no level can be added or there have been as many growths as there are levels;
     in that case a leaf has been split, for the tries always suffice to come to that. The exception is a leaf that has no
     room and cannot be split: then that leaf and the new one have been written over.
     */
    method LinkName(x: Link) returns (what: Answer, ghost y: Rec, ghost parted: bool, ghost r: Ruin)
      requires Valid() && 0 < |x.name| < 0x100 && x.inode < U32 && index.size + index.maxLevels + 1 <= BLOCKS
      modifies `leaves, `rows, index`nodes, index`levels, index`size, index`tree
      ensures Answered(old(Entries()), x, what, y, r)
      ensures old(HasPlace(x)) ==> what == Entered && index.size == old(index.size)
      ensures !old(HasPlace(x)) && what == Entered ==> index.size > old(index.size)
      ensures old(Stuck(x)) ==> what == NotSplit
      ensures what == NoRoom ==> Refused(x, index.size - old(index.size)) && (!parted ==> AllFull(Hash(hash, x.name)))
      ensures parted <==> LeafCount() > old(LeafCount())
    {
      ghost var level, was, size, count := 0, Entries(), index.size, LeafCount();
      var restart, again := 0, true;
      parted, what, y, r := false, NoRoom, Free(0), Ruin(End, 0, 0);
      while again
        invariant Answered(was, x, what, y, r) && restart <= index.maxLevels + 1
        invariant old(Stuck(x)) ==> (if restart == 0 then Stuck(x) else what == NotSplit)
        invariant if restart == 0 then again && (HasPlace(x) <==> old(HasPlace(x)))
                  else what == Entered && index.size == size <==> old(HasPlace(x))
        invariant again ==> what == NoRoom && Trying(restart, level, parted, Hash(hash, x.name)) && index.size == size + restart
        invariant !again && what == NoRoom ==> Refused(x, index.size - size) && (!parted ==> AllFull(Hash(hash, x.name)))
        invariant index.size >= size && LeafCount() >= count && (parted <==> LeafCount() > count)
        decreases again, index.maxLevels + 1 - restart
      {
        again, what, y, level, parted, r := Try(x, restart, level, parted);
        restart := restart + 1;
      }
    }

    method LoadBlock(s: seq<char>) returns (buf: array<char>)
      ensures fresh(buf) && buf[..] == s
    {
      buf := new char[|s|];
      forall i | 0 <= i < |s| {
        buf[i] := s[i];
      }
    }
  }
}
