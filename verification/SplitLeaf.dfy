/**
 Model of dx_split_leaf in libext2fs/link.c: the live entries of a full leaf of a hashed directory are
 distributed by hash over two leaves. The hash is any function with even values.
 */
module SplitLeaf {
  import opened Bytes
  import opened DirBlock
  import Qsort

  type HashFunction = string -> nat

  /** `ext2fs_dirhash2`: some even number of 32 bits. */
  function Hash(h: HashFunction, name: string): (x: nat) {
    2 * (h(name) % 0x8000_0000)
  }

  /** `struct dx_hash_map`. */
  datatype MapEntry = MapEntry(hash: nat, size: nat, off: nat)

  /** `dx_hash_map_cmp`. */
  function Compare(a: MapEntry, b: MapEntry): (c: int) {
    if a.hash < b.hash then -1 else if a.hash > b.hash then 1 else 0
  }

  lemma CompareIsTotal()
    ensures Qsort.TotalPreorder(Compare)
  {
    forall x, y ensures Qsort.Opposite(Compare, x, y) {
    }
    forall x, y, z ensures Qsort.Chained(Compare, x, y, z) {
    }
  }

  // ----- Sums and maps of rearranged lists -----

  function Sum<T>(s: seq<T>, f: T -> nat): (n: nat) {
    if s == [] then 0 else f(s[0]) + Sum(s[1..], f)
  }

  function Map<T, U>(s: seq<T>, f: T -> U): (t: seq<U>)
    ensures |t| == |s| && forall i :: 0 <= i < |t| ==> t[i] == f(s[i])
  {
    seq(|s|, i requires 0 <= i < |s| => f(s[i]))
  }

  lemma {:induction false} SumConcat<T>(a: seq<T>, b: seq<T>, f: T -> nat)
    ensures Sum(a + b, f) == Sum(a, f) + Sum(b, f)
  {
    if a == [] {
      assert a + b == b;
    } else {
      assert (a + b)[1..] == a[1..] + b;
      SumConcat(a[1..], b, f);
    }
  }

  lemma MapConcat<T, U>(a: seq<T>, b: seq<T>, f: T -> U)
    ensures Map(a + b, f) == Map(a, f) + Map(b, f)
  {
  }

  /** The first item of a list has a place in every rearrangement; without it, the rests are rearranged. */
  lemma Pick<T>(s: seq<T>, t: seq<T>) returns (a: seq<T>, b: seq<T>)
    requires s != [] && multiset(s) == multiset(t)
    ensures t == a + ([s[0]] + b) && multiset(s[1..]) == multiset(a + b)
  {
    assert s[0] in multiset(s);
    var k :| 0 <= k < |t| && t[k] == s[0];
    a, b := t[..k], t[k + 1..];
    assert t == a + ([s[0]] + b);
    Removed(s, t, a, b);
  }

  lemma Removed<T>(s: seq<T>, t: seq<T>, a: seq<T>, b: seq<T>)
    requires s != [] && multiset(s) == multiset(t) && t == a + ([s[0]] + b)
    ensures multiset(s[1..]) == multiset(a + b)
  {
    assert s == [s[0]] + s[1..];
    assert multiset(t) == multiset(a) + (multiset([s[0]]) + multiset(b));
    assert multiset(s[1..]) == multiset(s) - multiset([s[0]]);
    assert multiset(a + b) == multiset(t) - multiset([s[0]]);
  }

  lemma {:induction false} SumRearranged<T>(s: seq<T>, t: seq<T>, f: T -> nat)
    requires multiset(s) == multiset(t)
    ensures Sum(s, f) == Sum(t, f)
    decreases |s|
  {
    if s == [] {
      assert |t| == |multiset(t)| == 0;
    } else {
      var a, b := Pick(s, t);
      SumRearranged(s[1..], a + b, f);
      SumConcat(a, b, f);
      SumConcat(a, [s[0]] + b, f);
      SumConcat([s[0]], b, f);
      assert Sum([s[0]], f) == f(s[0]);
    }
  }

  lemma {:induction false} MapRearranged<T, U>(s: seq<T>, t: seq<T>, f: T -> U)
    requires multiset(s) == multiset(t)
    ensures multiset(Map(s, f)) == multiset(Map(t, f))
    decreases |s|
  {
    if s == [] {
      assert |t| == |multiset(t)| == 0;
    } else {
      var a, b := Pick(s, t);
      MapRearranged(s[1..], a + b, f);
      MapConcat(a, b, f);
      MapConcat(a, [s[0]] + b, f);
      MapConcat([s[0]], b, f);
      assert [s[0]] + s[1..] == s;
      MapConcat([s[0]], s[1..], f);
    }
  }

  // ----- The map of a leaf -----

  function RecOf(s: seq<char>, pos: nat): (r: Rec)
    requires pos + HEAD <= |s| && pos + HEAD + NameLen(s, pos) <= |s|
  {
    Rec(RecLen(s, pos), Inode(s, pos), s[pos + HEAD..pos + HEAD + NameLen(s, pos)], Kind(s, pos))
  }

  /** The live entry that an item of the map leads to. */
  function DirentOf(s: seq<char>, m: MapEntry): (x: Dirent) {
    if m.off + HEAD <= |s| && m.off + HEAD + NameLen(s, m.off) <= |s| then
      var r := RecOf(s, m.off); Dirent(r.inode, r.name, r.kind)
    else Dirent(0, "", 0)
  }

  /** An entry that goes into the map: one with an inode and a name. */
  predicate Named(r: Rec) {
    r.inode != 0 && r.name != ""
  }

  function NamedLive(row: Row): (xs: seq<Dirent>) {
    match row
    case End => []
    case Then(r, rest) => (if Named(r) then LiveOne(r) else []) + NamedLive(rest)
  }

  function MapOf(row: Row, pos: nat, h: HashFunction): (ms: seq<MapEntry>)
    decreases row
  {
    match row
    case End => []
    case Then(r, rest) => MapOne(r, pos, h) + MapOf(rest, pos + r.len, h)
  }

  /** The item leads to a record with its size and with a name of its hash. */
  ghost predicate Points(s: seq<char>, m: MapEntry, h: HashFunction) {
    && m.off + HEAD <= |s| && m.off + HEAD + NameLen(s, m.off) <= |s|
    && RecAt(s, m.off, RecOf(s, m.off)) && Named(RecOf(s, m.off))
    && m.size == RecLen(s, m.off) && m.hash == Hash(h, RecOf(s, m.off).name)
  }

  ghost predicate AllPoint(s: seq<char>, ms: seq<MapEntry>, h: HashFunction) {
    forall m <- ms :: Points(s, m, h)
  }

  function Size(m: MapEntry): (n: nat) { m.size }

  /** The live entries that the items of a map lead to. */
  function Dirents(s: seq<char>, ms: seq<MapEntry>): (xs: seq<Dirent>) {
    Map(ms, m => DirentOf(s, m))
  }

  lemma DirentsConcat(s: seq<char>, a: seq<MapEntry>, b: seq<MapEntry>)
    ensures Dirents(s, a + b) == Dirents(s, a) + Dirents(s, b)
  {
    MapConcat(a, b, m => DirentOf(s, m));
  }

  function MapOne(r: Rec, pos: nat, h: HashFunction): (ms: seq<MapEntry>) {
    if Named(r) then [MapEntry(Hash(h, r.name), r.len, pos)] else []
  }

  lemma OnePoints(s: seq<char>, pos: nat, r: Rec, h: HashFunction)
    requires RecAt(s, pos, r)
    ensures AllPoint(s, MapOne(r, pos, h), h)
    ensures Dirents(s, MapOne(r, pos, h)) == if Named(r) then LiveOne(r) else []
  {
    assert RecOf(s, pos) == r;
  }

  lemma {:induction false} MapPoints(s: seq<char>, pos: nat, end: nat, row: Row, h: HashFunction)
    requires Holds(s, pos, end, row)
    ensures AllPoint(s, MapOf(row, pos, h), h)
    decreases row
  {
    if row.Then? {
      MapPoints(s, pos + row.first.len, end, row.rest, h);
      OnePoints(s, pos, row.first, h);
    }
  }

  lemma {:induction false} MapLive(s: seq<char>, pos: nat, end: nat, row: Row, h: HashFunction)
    requires Holds(s, pos, end, row)
    ensures Dirents(s, MapOf(row, pos, h)) == NamedLive(row)
    decreases row
  {
    if row.Then? {
      var next := pos + row.first.len;
      MapLive(s, next, end, row.rest, h);
      OnePoints(s, pos, row.first, h);
      DirentsConcat(s, MapOne(row.first, pos, h), MapOf(row.rest, next, h));
    }
  }

  lemma {:induction false} MapSizes(row: Row, pos: nat, h: HashFunction)
    ensures Sum(MapOf(row, pos, h), Size) <= Total(row)
    decreases row
  {
    if row.Then? {
      var next := pos + row.first.len;
      MapSizes(row.rest, next, h);
      SumConcat(MapOne(row.first, pos, h), MapOf(row.rest, next, h), Size);
    }
  }

  /** An entry with a name takes at least twelve bytes, so that `blocksize / 12` items are enough. */
  lemma NamedLen(r: Rec)
    requires Proper(r)
    ensures Named(r) ==> 12 <= r.len
  {
    FoursIs(r.len);
  }

  method AddItem(hashMap: array<MapEntry>, count: nat, r: Rec, offset: nat, h: HashFunction) returns (count': nat)
    requires count <= hashMap.Length && (Named(r) ==> count < hashMap.Length)
    modifies hashMap
    ensures count' == count + |MapOne(r, offset, h)| <= hashMap.Length
    ensures hashMap[..count'] == old(hashMap[..count]) + MapOne(r, offset, h)
  {
    count' := count;
    if Named(r) {
      hashMap[count] := MapEntry(Hash(h, r.name), r.len, offset);
      count' := count + 1;
    }
  }

  /** The items found so far, and those of the rest, are those of the row. */
  ghost predicate Gathered(items: seq<MapEntry>, row: Row, rest: Row, offset: nat, h: HashFunction) {
    items + MapOf(rest, offset, h) == MapOf(row, 0, h)
  }

  /** The record r is the first of the rest, or the tail. */
  ghost predicate Steps(r: Rec, rest: Row, rest': Row) {
    if rest.Then? then r == rest.first && rest' == rest.rest else !Named(r) && rest' == rest
  }

  lemma GatheredNext(items: seq<MapEntry>, items': seq<MapEntry>, row: Row, rest: Row, rest': Row, r: Rec,
                     offset: nat, next: nat, h: HashFunction)
    requires Gathered(items, row, rest, offset, h) && items' == items + MapOne(r, offset, h) && Steps(r, rest, rest')
    requires next == offset + r.len
    ensures Gathered(items', row, rest', next, h)
  {
    if rest.Then? {
      Associate(items, MapOne(r, offset, h), MapOf(rest.rest, offset + r.len, h));
    }
  }

  /** Where the loop may stand: in the row, or behind the tail. */
  ghost predicate AtRow(s: seq<char>, offset: nat, end: nat, csum: bool, rest: Row) {
    && TAIL <= |s| && end == |s| - TailSize(csum) && (csum ==> IsTail(s, end))
    && (if offset <= end then Holds(s, offset, end, rest) else offset == |s| && rest == End)
  }

  lemma NextFits(s: seq<char>, offset: nat, end: nat, csum: bool, rest: Row) returns (next: nat, rest': Row)
    requires AtRow(s, offset, end, csum, rest) && offset < |s|
    ensures offset + HEAD <= |s| && offset + HEAD + NameLen(s, offset) <= |s|
    ensures next == offset + RecOf(s, offset).len && Steps(RecOf(s, offset), rest, rest')
    ensures AtRow(s, next, end, csum, rest')
    ensures offset < next <= |s| && (Named(RecOf(s, offset)) ==> offset + 12 <= next)
  {
    HoldsTotal(s, offset, end, rest);
    NamedLen(RecOf(s, offset));
    next, rest' := offset + RecOf(s, offset).len, if rest.Then? then rest.rest else rest;
  }

  /** `blocksize / 12` items are enough. */
  lemma Capacity(n: nat)
    ensures n < 12 * (n / 12) + 12
  {
  }

  /** What the first loop has read when it comes to offset. */
  ghost predicate Reading(s: seq<char>, items: seq<MapEntry>, offset: nat, end: nat, csum: bool, row: Row, rest: Row,
                          h: HashFunction) {
    AtRow(s, offset, end, csum, rest) && 12 * |items| <= offset <= |s| && Gathered(items, row, rest, offset, h)
  }

  lemma ReadFits(s: seq<char>, items: seq<MapEntry>, offset: nat, end: nat, csum: bool, row: Row, rest: Row, h: HashFunction)
    requires Reading(s, items, offset, end, csum, row, rest, h) && offset < |s|
    ensures offset + HEAD <= |s| && offset + HEAD + NameLen(s, offset) <= |s| && 0 < RecOf(s, offset).len
    ensures Named(RecOf(s, offset)) ==> 12 * |items| + 12 <= |s|
  {
    var next, rest' := NextFits(s, offset, end, csum, rest);
  }

  lemma ReadNext(s: seq<char>, items: seq<MapEntry>, items': seq<MapEntry>, offset: nat, next: nat, end: nat, csum: bool,
                 row: Row, rest: Row, h: HashFunction)
    returns (rest': Row)
    requires Reading(s, items, offset, end, csum, row, rest, h) && offset < |s|
    requires offset + HEAD <= |s| && offset + HEAD + NameLen(s, offset) <= |s| && next == offset + RecOf(s, offset).len
    requires items' == items + MapOne(RecOf(s, offset), offset, h)
    ensures Reading(s, items', next, end, csum, row, rest', h)
  {
    var next';
    next', rest' := NextFits(s, offset, end, csum, rest);
    GatheredNext(items, items', row, rest, rest', RecOf(s, offset), offset, next, h);
  }

  /** One turn of the first loop of `dx_split_leaf`. */
  method ReadItem(buf: array<char>, hashMap: array<MapEntry>, count: nat, offset: nat, h: HashFunction,
                  ghost end: nat, ghost csum: bool, ghost row: Row, ghost rest: Row)
    returns (count': nat, offset': nat, ghost rest': Row)
    requires count <= hashMap.Length && offset < buf.Length < 12 * hashMap.Length + 12
    requires Reading(buf[..], hashMap[..count], offset, end, csum, row, rest, h)
    modifies hashMap
    ensures offset < offset' && count' <= hashMap.Length
    ensures Reading(old(buf[..]), hashMap[..count'], offset', end, csum, row, rest', h)
  {
    ghost var s, items := buf[..], hashMap[..count];
    ReadFits(s, items, offset, end, csum, row, rest, h);
    var r := RecOf(buf[..], offset);
    offset' := offset + r.len;
    count' := AddItem(hashMap, count, r, offset, h);
    rest' := ReadNext(s, items, hashMap[..count'], offset, offset', end, csum, row, rest, h);
  }

  /** The first loop of `dx_split_leaf`. */
  method ReadMap(buf: array<char>, csum: bool, h: HashFunction, ghost row: Row) returns (hashMap: array<MapEntry>, count: nat)
    requires Formed(buf[..], row, csum)
    ensures fresh(hashMap) && count <= hashMap.Length && hashMap[..count] == MapOf(row, 0, h)
  {
    Capacity(buf.Length);
    hashMap := new MapEntry[buf.Length / 12](_ => MapEntry(0, 0, 0));
    count := 0;
    var offset := 0;
    ghost var s, end, rest := buf[..], buf.Length - TailSize(csum), row;
    while offset < buf.Length
      invariant buf[..] == s && count <= hashMap.Length && Reading(s, hashMap[..count], offset, end, csum, row, rest, h)
      decreases buf.Length - offset
    {
      count, offset, rest := ReadItem(buf, hashMap, count, offset, h, end, csum, row, rest);
    }
    AllGathered(s, hashMap[..count], row, rest, offset, end, csum, h);
  }

  lemma AllGathered(s: seq<char>, items: seq<MapEntry>, row: Row, rest: Row, offset: nat, end: nat, csum: bool, h: HashFunction)
    requires AtRow(s, offset, end, csum, rest) && offset >= |s| && Gathered(items, row, rest, offset, h)
    ensures items == MapOf(row, 0, h)
  {
    if rest.Then? {
      HoldsTotal(s, offset, end, rest);
    }
  }

  // ----- Where to split -----

  lemma SumFrom(ms: seq<MapEntry>, i: nat)
    requires i < |ms|
    ensures Sum(ms[i..], Size) == ms[i].size + Sum(ms[i + 1..], Size)
  {
    assert ms[i..][1..] == ms[i + 1..];
  }

  lemma {:induction false} SumSuffix(ms: seq<MapEntry>, i: nat, j: nat)
    requires i <= j <= |ms|
    ensures Sum(ms[j..], Size) <= Sum(ms[i..], Size)
    decreases j - i
  {
    if i < j {
      SumFrom(ms, i);
      SumSuffix(ms, i + 1, j);
    }
  }

  /**
   The second loop of `dx_split_leaf` finds the first item to move: those behind it are of about half a block. All
   items are to be moved unless those behind the first, and half of the first, are more than that.
   */
  method FindSplit(hashMap: array<MapEntry>, count: nat, blockSize: nat) returns (i: nat)
    requires count <= hashMap.Length && forall k :: 0 <= k < count ==> hashMap[k].size <= blockSize
    ensures i <= count && (count > 0 ==> i < count)
    ensures i > 0 <==> count > 0 && Sum(hashMap[..count][1..], Size) + hashMap[0].size / 2 > blockSize / 2
    ensures count > 0 ==> Sum(hashMap[..count][i + 1..], Size) + hashMap[i].size / 2 <= blockSize / 2
    ensures i > 0 ==> Sum(hashMap[..count][i..], Size) + hashMap[i - 1].size / 2 > blockSize / 2
  {
    ghost var ms := hashMap[..count];
    var moveSize := 0;
    i := count;
    while i > 0
      invariant i <= count && moveSize == Sum(ms[i..], Size)
      invariant i < count ==> Sum(ms[i + 1..], Size) + ms[i].size / 2 <= blockSize / 2
    {
      if moveSize + hashMap[i - 1].size / 2 > blockSize / 2 {
        break;
      }
      i := i - 1;
      SumFrom(ms, i);
      moveSize := moveSize + hashMap[i].size;
    }
    if i > 1 {
      SumSuffix(ms, 1, i - 1);
      SumFrom(ms, i - 1);
    }
  }

  // ----- Moving entries -----

  /** `ext2fs_initialize_dirent_tail`. */
  method PutTail(buf: array<char>, pos: nat)
    requires pos + TAIL <= buf.Length < U16
    modifies buf
    ensures IsTail(buf[..], pos) && Outside(old(buf[..]), buf[..], pos, pos + TAIL)
  {
    PutBytes(buf, pos, seq(TAIL, _ => 0 as char));
    FoursIs(TAIL);
    var ok := SetRecLen(buf, pos, TAIL);
    Put8(buf, pos + 6, 0);
    Put8(buf, pos + 7, 0xDE);
  }

  /** The record that an item leads to, cut to what its name needs. */
  function Packed(s: seq<char>, off: nat): (r: Rec)
    requires off + HEAD <= |s| && off + HEAD + NameLen(s, off) <= |s|
  {
    var r := RecOf(s, off);
    r.(len := MinLen(|r.name|))
  }

  /** A record is copied, without what it does not need. */
  method CopyRec(src: array<char>, off: nat, dst: array<char>, pos: nat) returns (len: nat)
    requires src != dst && off + HEAD <= src.Length && off + HEAD + NameLen(src[..], off) <= src.Length
    requires RecAt(src[..], off, RecOf(src[..], off)) && pos + MinLen(NameLen(src[..], off)) <= dst.Length < U16
    modifies dst
    ensures len == MinLen(NameLen(src[..], off)) && RecAt(dst[..], pos, Packed(src[..], off))
    ensures Outside(old(dst[..]), dst[..], pos, pos + len)
  {
    len := MinLen(NameLen(src[..], off));
    MinFits(NameLen(src[..], off));
    MinLeast(NameLen(src[..], off), RecLen(src[..], off));
    PutBytes(dst, pos, src[off..off + len]);
    ghost var a := dst[..];
    SameHead(src[..], off, a, pos, len);
    var ok := SetRecLen(dst, pos, len);
    RelengthHead(a, dst[..], pos, len);
  }

  lemma SameHead(s: seq<char>, off: nat, t: seq<char>, pos: nat, len: nat)
    requires off + len <= |s| && pos + len <= |t| && s[off..off + len] == t[pos..pos + len]
    requires HEAD <= len && HEAD + NameLen(s, off) <= len
    ensures Inode(t, pos) == Inode(s, off) && NameLen(t, pos) == NameLen(s, off) && Kind(t, pos) == Kind(s, off)
    ensures t[pos + HEAD..pos + HEAD + NameLen(s, off)] == s[off + HEAD..off + HEAD + NameLen(s, off)]
  {
    var c, d, n := s[off..off + len], t[pos..pos + len], NameLen(s, off);
    assert U32At(c, 0) == Inode(s, off) && U32At(d, 0) == Inode(t, pos);
    assert c[6] == s[off + 6] && d[6] == t[pos + 6] && c[7] == s[off + 7] && d[7] == t[pos + 7];
    SliceOfSlice(s, off, off + len, HEAD, HEAD + n);
    SliceOfSlice(t, pos, pos + len, HEAD, HEAD + n);
  }

  lemma SliceOfSlice(s: seq<char>, a: nat, b: nat, c: nat, d: nat)
    requires a <= b <= |s| && c <= d <= b - a
    ensures s[a..b][c..d] == s[a + c..a + d]
  {
    var t, u := s[a..b][c..d], s[a + c..a + d];
    forall k | 0 <= k < |t| ensures t[k] == u[k] {
      assert s[a..b][c + k] == s[a + c + k];
    }
  }

  /** A row with one more record behind it. */
  function Longer(row: Row, r: Rec): (row': Row) {
    Append(row, Then(r, End))
  }

  lemma LongerHolds(t: seq<char>, u: seq<char>, pos: nat, next: nat, row: Row, r: Rec)
    requires Holds(t, 0, pos, row) && SameIn(t, u, 0, pos) && RecAt(u, pos, r) && next == pos + r.len
    ensures Holds(u, 0, next, Longer(row, r))
  {
    HoldsKept(t, u, 0, pos, row);
    assert Holds(u, pos, next, Then(r, End));
    HoldsAppend(u, 0, pos, next, row, Then(r, End));
  }

  lemma LongerLive(row: Row, r: Rec)
    ensures Live(Longer(row, r)) == Live(row) + LiveOne(r)
  {
    LiveAppend(row, Then(r, End));
    assert LiveOne(r) + [] == LiveOne(r);
  }

  /**
   What the first i items of a list have become at the beginning of a block: a row of packed records that ends
   at pos, of which the last begins at pos - len.
   */
  ghost predicate Moving(t: seq<char>, pos: nat, len: nat, before: Row, last: Rec, xs: seq<Dirent>) {
    && len <= pos <= |t| && Holds(t, 0, pos - len, before) && last.len == len && (before.Then? ==> before.first.inode != 0)
    && (len > 0 ==> RecAt(t, pos - len, last) && last.inode != 0 && xs == Live(before) + LiveOne(last))
    && (len == 0 ==> pos == 0 && xs == [] && before == End)
  }

  /** The first record is live. */
  ghost predicate Begins(row: Row) {
    row.Then? && row.first.inode != 0
  }

  lemma MovingNext(t: seq<char>, u: seq<char>, pos: nat, len: nat, before: Row, last: Rec, xs: seq<Dirent>, r: Rec)
    returns (before': Row)
    requires Moving(t, pos, len, before, last, xs) && RecAt(u, pos, r) && r.inode != 0 && SameIn(t, u, 0, pos)
    ensures Moving(u, pos + r.len, r.len, before', r, xs + LiveOne(r))
  {
    if len == 0 {
      before' := End;
      assert [] + LiveOne(r) == LiveOne(r);
    } else {
      before' := Longer(before, last);
      RecKept(t, u, pos - len, last);
      LongerHolds(t, u, pos - len, pos, before, last);
      LongerLive(before, last);
    }
  }

  /** The last record is stretched to the end of the row. */
  lemma Stretched(t: seq<char>, u: seq<char>, pos: nat, len: nat, end: nat, before: Row, last: Rec, xs: seq<Dirent>)
    returns (row: Row)
    requires Moving(t, pos, len, before, last, xs) && 0 < len && pos <= end <= |t|
    requires Relength(t, u, pos - len, end - (pos - len)) && Fours(end - (pos - len))
    ensures Holds(u, 0, end, row) && Live(row) == xs && Begins(row)
  {
    var q := pos - len;
    var last' := last.(len := end - q);
    row := Longer(before, last');
    RelengthHead(t, u, q, end - q);
    LongerHolds(t, u, q, end, before, last');
    LongerLive(before, last');
  }

  lemma {:induction false} TotalFours(row: Row)
    requires AllProper(row)
    ensures Fours(Total(row))
  {
    if row.Then? {
      TotalFours(row.rest);
      FoursSum(row.first.len, Total(row.rest));
    }
  }

  /** The sizes of the records that are still to be moved fit behind those that have been. */
  ghost predicate MoveFits(s: seq<char>, ms: seq<MapEntry>, i: nat, pos: nat, end: nat, h: HashFunction) {
    i <= |ms| && AllPoint(s, ms, h) && pos + Sum(ms[i..], Size) <= end
  }

  lemma MoveFitsNext(s: seq<char>, ms: seq<MapEntry>, i: nat, pos: nat, end: nat, h: HashFunction)
    requires MoveFits(s, ms, i, pos, end, h) && i < |ms|
    ensures var m := ms[i];
            m.off + HEAD <= |s| && m.off + HEAD + NameLen(s, m.off) <= |s| && RecAt(s, m.off, RecOf(s, m.off)) &&
            RecOf(s, m.off).inode != 0 && 0 < MinLen(NameLen(s, m.off)) &&
            MoveFits(s, ms, i + 1, pos + MinLen(NameLen(s, m.off)), end, h)
  {
    SumFrom(ms, i);
    var m := ms[i];
    assert Points(s, m, h);
    MinFits(NameLen(s, m.off));
    MinLeast(NameLen(s, m.off), RecLen(s, m.off));
  }

  lemma DirentsNext(s: seq<char>, ms: seq<MapEntry>, i: nat, j: nat)
    requires j == i + 1 <= |ms|
    ensures Dirents(s, ms[..j]) == Dirents(s, ms[..i]) + [DirentOf(s, ms[i])]
  {
  }

  /** What the loop of `dx_move_dirents` has done when it comes to item i. */
  ghost predicate Moved(s: seq<char>, t: seq<char>, ms: seq<MapEntry>, i: nat, pos: nat, len: nat, end: nat, h: HashFunction,
                        before: Row, last: Rec) {
    && MoveFits(s, ms, i, pos, end, h) && Moving(t, pos, len, before, last, Dirents(s, ms[..i])) && (i > 0 ==> len > 0)
  }

  /** One turn of the loop of `dx_move_dirents`. */
  method MoveOne(src: array<char>, dst: array<char>, m: MapEntry, pos: nat, len: nat, end: nat, h: HashFunction,
                 ghost ms: seq<MapEntry>, ghost i: nat, ghost before: Row, ghost last: Rec)
    returns (pos': nat, len': nat, ghost before': Row, ghost last': Rec)
    requires src != dst && end <= dst.Length < U16 && i < |ms| && m == ms[i]
    requires Moved(src[..], dst[..], ms, i, pos, len, end, h, before, last)
    modifies dst
    ensures Moved(old(src[..]), dst[..], ms, i + 1, pos', len', end, h, before', last')
  {
    ghost var s, t := src[..], dst[..];
    MoveFitsNext(s, ms, i, pos, end, h);
    len' := CopyRec(src, m.off, dst, pos);
    pos' := pos + len';
    before', last' := MovedOne(s, t, dst[..], ms, i, pos, pos', len, len', before, last);
  }

  lemma MovedOne(s: seq<char>, t: seq<char>, u: seq<char>, ms: seq<MapEntry>, i: nat, pos: nat, pos': nat, len: nat, len': nat,
                 before: Row, last: Rec)
    returns (before': Row, last': Rec)
    requires i < |ms| && ms[i].off + HEAD <= |s| && ms[i].off + HEAD + NameLen(s, ms[i].off) <= |s|
    requires Moving(t, pos, len, before, last, Dirents(s, ms[..i])) && Outside(t, u, pos, pos')
    requires RecAt(u, pos, Packed(s, ms[i].off)) && RecOf(s, ms[i].off).inode != 0
    requires len' == MinLen(NameLen(s, ms[i].off)) && pos' == pos + len'
    ensures Moving(u, pos', len', before', last', Dirents(s, ms[..i + 1]))
  {
    last' := Packed(s, ms[i].off);
    PackedLive(s, ms[i]);
    var xs := Dirents(s, ms[..i]);
    before' := MovingNext(t, u, pos, len, before, last, xs, last');
    DirentsNext(s, ms, i, i + 1);
  }

  lemma PackedLive(s: seq<char>, m: MapEntry)
    requires m.off + HEAD <= |s| && m.off + HEAD + NameLen(s, m.off) <= |s| && RecOf(s, m.off).inode != 0
    ensures LiveOne(Packed(s, m.off)) == [DirentOf(s, m)] && Packed(s, m.off).inode != 0
    ensures Packed(s, m.off).len == MinLen(NameLen(s, m.off))
  {
  }

  lemma MovedStart(s: seq<char>, t: seq<char>, ms: seq<MapEntry>, end: nat, h: HashFunction, before: Row, last: Rec)
    requires AllPoint(s, ms, h) && Sum(ms, Size) <= end && before == End && last.len == 0
    ensures Moved(s, t, ms, 0, 0, 0, end, h, before, last)
  {
    assert ms[..0] == [] && ms[0..] == ms;
  }

  lemma MovedAll(s: seq<char>, t: seq<char>, ms: seq<MapEntry>, n: nat, pos: nat, len: nat, end: nat, h: HashFunction,
                 before: Row, last: Rec)
    requires Moved(s, t, ms, n, pos, len, end, h, before, last) && n == |ms| > 0
    ensures pos <= end && 0 < len && Moving(t, pos, len, before, last, Dirents(s, ms))
  {
    assert ms[..n] == ms && ms[n..] == [];
  }

  lemma StretchFits(t: seq<char>, pos: nat, len: nat, end: nat, before: Row, last: Rec, xs: seq<Dirent>)
    requires Moving(t, pos, len, before, last, xs) && pos <= end && Fours(end)
    ensures Fours(end - (pos - len))
  {
    HoldsTotal(t, 0, pos - len, before);
    TotalFours(before);
    FoursSum(pos - len, end - (pos - len));
  }

  lemma MovedNone(s: seq<char>, t: seq<char>, pos: nat, len: nat, end: nat, h: HashFunction, before: Row, last: Rec)
    requires Moved(s, t, [], 0, pos, len, end, h, before, last)
    ensures pos == len && pos <= end
  {
  }

  /** The loop of `dx_move_dirents`. */
  method MoveAll(src: array<char>, dst: array<char>, hashMap: array<MapEntry>, lo: nat, hi: nat, end: nat, h: HashFunction,
                 ghost s: seq<char>, ghost ms: seq<MapEntry>)
    returns (pos: nat, len: nat, ghost before: Row, ghost last: Rec)
    requires src != dst && end <= dst.Length < U16 && lo <= hi <= hashMap.Length && s == src[..] && ms == hashMap[lo..hi]
    requires AllPoint(s, ms, h) && Sum(ms, Size) <= end
    modifies dst
    ensures len <= pos <= end
    ensures lo < hi ==> 0 < len && Moving(dst[..], pos, len, before, last, Dirents(s, ms))
    ensures lo == hi ==> pos == len == 0 && dst[..] == old(dst[..])
  {
    pos, len, before, last := 0, 0, End, Rec(0, 0, "", 0);
    MovedStart(s, dst[..], ms, end, h, before, last);
    for i := 0 to hi - lo
      invariant src[..] == s && hashMap[lo..hi] == ms && Moved(s, dst[..], ms, i, pos, len, end, h, before, last)
      invariant i == 0 ==> pos == len == 0 && dst[..] == old(dst[..])
    {
      pos, len, before, last := MoveOne(src, dst, hashMap[lo + i], pos, len, end, h, ms, i, before, last);
    }
    if lo < hi {
      MovedAll(s, dst[..], ms, hi - lo, pos, len, end, h, before, last);
    }
  }

  /** The last record is stretched; if there is none, what is at the beginning of the block. */
  method Stretch(dst: array<char>, pos: nat, len: nat, end: nat, ghost before: Row, ghost last: Rec, ghost xs: seq<Dirent>)
    returns (ghost row: Row)
    requires len <= pos <= end <= dst.Length < U16 && TAIL <= dst.Length && Fours(end)
    requires if len > 0 then Moving(dst[..], pos, len, before, last, xs) else pos == 0
    modifies dst
    ensures len > 0 ==> Holds(dst[..], 0, end, row) && Live(row) == xs && Begins(row)
    ensures len == 0 ==> Relength(old(dst[..]), dst[..], 0, end)
  {
    ghost var t := dst[..];
    row := End;
    if len > 0 {
      StretchFits(t, pos, len, end, before, last, xs);
    }
    var ok := SetRecLen(dst, pos - len, end - (pos - len));
    if len > 0 {
      row := Stretched(t, dst[..], pos, len, end, before, last, xs);
    }
  }

  /** The first record of a block has become as long as the block; nothing else has changed but the tail. */
  ghost predicate Overlaid(s: seq<char>, t: seq<char>, csum: bool) {
    && TAIL <= |s| == |t| && (HEAD <= |t| - TailSize(csum) ==> RecLen(t, 0) == |t| - TailSize(csum))
    && (csum ==> IsTail(t, |t| - TAIL))
    && forall k :: 0 <= k < |s| - TailSize(csum) && !(4 <= k < 6) ==> t[k] == s[k]
  }

  /** And the tail written. */
  method Finish(dst: array<char>, pos: nat, len: nat, csum: bool, ghost before: Row, ghost last: Rec, ghost xs: seq<Dirent>)
    returns (ghost row: Row)
    requires TAIL <= dst.Length < U16 && len <= pos <= dst.Length - TailSize(csum) && Fours(dst.Length - TailSize(csum))
    requires if len > 0 then Moving(dst[..], pos, len, before, last, xs) else pos == 0
    modifies dst
    ensures len > 0 ==> Formed(dst[..], row, csum) && Live(row) == xs && Begins(row)
    ensures len == 0 ==> Overlaid(old(dst[..]), dst[..], csum)
  {
    ghost var s := dst[..];
    var end := dst.Length - TailSize(csum);
    row := Stretch(dst, pos, len, end, before, last, xs);
    ghost var t := dst[..];
    if csum {
      PutTail(dst, end);
    }
    if len > 0 {
      TailFormed(t, dst[..], csum, row);
    } else {
      TailOverlaid(s, t, dst[..], csum);
    }
  }

  lemma TailFormed(t: seq<char>, u: seq<char>, csum: bool, row: Row)
    requires TAIL <= |t| == |u| && Holds(t, 0, |t| - TailSize(csum), row)
    requires if csum then IsTail(u, |u| - TAIL) && Outside(t, u, |u| - TAIL, |u|) else u == t
    ensures Formed(u, row, csum)
  {
    HoldsKept(t, u, 0, |t| - TailSize(csum), row);
  }

  lemma TailOverlaid(s: seq<char>, t: seq<char>, u: seq<char>, csum: bool)
    requires TAIL <= |s| && Relength(s, t, 0, |s| - TailSize(csum)) && |u| == |t|
    requires if csum then IsTail(u, |u| - TAIL) && Outside(t, u, |u| - TAIL, |u|) else u == t
    ensures Overlaid(s, u, csum)
  {
  }

  /**
   `dx_move_dirents`: the entries become a row of a block, the last of them stretched to its end. If there are none, the
   record that happens to be at the beginning of the block is stretched over all of it.
   */
  method MoveDirents(src: array<char>, dst: array<char>, hashMap: array<MapEntry>, lo: nat, hi: nat, csum: bool, h: HashFunction,
                     ghost s: seq<char>, ghost ms: seq<MapEntry>)
    returns (ghost row: Row)
    requires src != dst && src.Length == dst.Length < U16 && lo <= hi <= hashMap.Length && s == src[..] && ms == hashMap[lo..hi]
    requires TAIL <= src.Length && Fours(src.Length - TailSize(csum))
    requires AllPoint(s, ms, h) && Sum(ms, Size) <= src.Length - TailSize(csum)
    modifies dst
    ensures lo < hi ==> Formed(dst[..], row, csum) && Live(row) == Dirents(s, ms) && Begins(row)
    ensures lo == hi ==> Overlaid(old(dst[..]), dst[..], csum)
  {
    ghost var before, last;
    var pos, len;
    pos, len, before, last := MoveAll(src, dst, hashMap, lo, hi, src.Length - TailSize(csum), h, s, ms);
    row := Finish(dst, pos, len, csum, before, last, Dirents(s, ms));
  }

  // ----- Splitting -----

  ghost predicate Ascending(ms: seq<MapEntry>) {
    forall i, j :: 0 <= i < j < |ms| ==> ms[i].hash <= ms[j].hash
  }

  /** The map after sorting. */
  ghost predicate SortedMap(s: seq<char>, ms: seq<MapEntry>, row: Row, end: nat, h: HashFunction) {
    && multiset(ms) == multiset(MapOf(row, 0, h)) && AllPoint(s, ms, h) && Sum(ms, Size) <= end
    && multiset(Dirents(s, ms)) == multiset(NamedLive(row))
    && Ascending(ms)
  }

  lemma SortedRight(s: seq<char>, ms: seq<MapEntry>, row: Row, end: nat, h: HashFunction)
    requires Holds(s, 0, end, row) && multiset(ms) == multiset(MapOf(row, 0, h))
    requires Ascending(ms)
    ensures SortedMap(s, ms, row, end, h)
  {
    var all := MapOf(row, 0, h);
    HoldsTotal(s, 0, end, row);
    MapPoints(s, 0, end, row, h);
    MapSizes(row, 0, h);
    MapLive(s, 0, end, row, h);
    SumRearranged(all, ms, Size);
    MapRearranged(all, ms, m => DirentOf(s, m));
    forall m | m in ms ensures Points(s, m, h) {
      assert m in multiset(all);
    }
  }

  lemma PointsSize(s: seq<char>, ms: seq<MapEntry>, h: HashFunction, k: nat)
    requires AllPoint(s, ms, h) && k < |ms|
    ensures ms[k].size <= |s|
  {
    assert Points(s, ms[k], h);
  }

  /** Both parts of a map can be moved. */
  lemma PartsFit(s: seq<char>, ms: seq<MapEntry>, i: nat, end: nat, h: HashFunction)
    requires AllPoint(s, ms, h) && Sum(ms, Size) <= end && i <= |ms|
    ensures AllPoint(s, ms[..i], h) && Sum(ms[..i], Size) <= end
    ensures AllPoint(s, ms[i..], h) && Sum(ms[i..], Size) <= end
  {
    assert ms[..i] + ms[i..] == ms;
    SumConcat(ms[..i], ms[i..], Size);
  }

  /** The hashes of the one list are less than the key, those of the other at least the key but for its lowest bit. */
  ghost predicate Separates(h: HashFunction, key: nat, xs: seq<Dirent>, ys: seq<Dirent>) {
    && (forall x <- xs :: Hash(h, x.name) < key)
    && (forall y <- ys :: key - key % 2 <= Hash(h, y.name))
  }

  /** Entries of one hash are in both lists. */
  ghost predicate Straddles(h: HashFunction, xs: seq<Dirent>, ys: seq<Dirent>) {
    exists x <- xs, y <- ys :: Hash(h, x.name) == Hash(h, y.name)
  }

  /** What makes two leaves of one. */
  ghost predicate Distributed(h: HashFunction, row: Row, oldRow: Row, newRow: Row, key: nat) {
    && multiset(Live(oldRow)) + multiset(Live(newRow)) == multiset(NamedLive(row))
    && Live(oldRow) != [] && Live(newRow) != []
    && Separates(h, key, Live(oldRow), Live(newRow)) && (key % 2 == 1 <==> Straddles(h, Live(oldRow), Live(newRow)))
  }

  function Key(ms: seq<MapEntry>, i: nat): (key: nat)
    requires 0 < i < |ms|
  {
    ms[i].hash + if ms[i].hash == ms[i - 1].hash then 1 else 0
  }

  lemma DirentHash(s: seq<char>, ms: seq<MapEntry>, h: HashFunction, k: nat)
    requires AllPoint(s, ms, h) && k < |ms|
    ensures Dirents(s, ms)[k] == DirentOf(s, ms[k]) && Hash(h, DirentOf(s, ms[k]).name) == ms[k].hash && ms[k].hash % 2 == 0
  {
    assert Points(s, ms[k], h);
  }

  lemma KeyAbove(s: seq<char>, ms: seq<MapEntry>, h: HashFunction, i: nat, k: nat)
    requires AllPoint(s, ms, h) && 0 < i < |ms| && k < i && Ascending(ms)
    ensures Hash(h, Dirents(s, ms)[k].name) < Key(ms, i)
  {
    DirentHash(s, ms, h, k);
  }

  lemma KeyBelow(s: seq<char>, ms: seq<MapEntry>, h: HashFunction, i: nat, k: nat)
    requires AllPoint(s, ms, h) && 0 < i <= k < |ms| && Ascending(ms)
    ensures Key(ms, i) - Key(ms, i) % 2 <= Hash(h, Dirents(s, ms)[k].name)
  {
    DirentHash(s, ms, h, i);
    DirentHash(s, ms, h, k);
    KeyEven(ms, i);
  }

  lemma KeyEven(ms: seq<MapEntry>, i: nat)
    requires 0 < i < |ms| && ms[i].hash % 2 == 0
    ensures Key(ms, i) - Key(ms, i) % 2 == ms[i].hash
  {
  }

  lemma KeySeparates(s: seq<char>, ms: seq<MapEntry>, h: HashFunction, i: nat, xs: seq<Dirent>, ys: seq<Dirent>)
    requires AllPoint(s, ms, h) && 0 < i < |ms| && xs + ys == Dirents(s, ms) && |xs| == i && Ascending(ms)
    ensures Separates(h, Key(ms, i), xs, ys)
  {
    forall x | x in xs ensures Hash(h, x.name) < Key(ms, i) {
      var k :| 0 <= k < |xs| && xs[k] == x;
      assert (xs + ys)[k] == x;
      KeyAbove(s, ms, h, i, k);
    }
    forall y | y in ys ensures Key(ms, i) - Key(ms, i) % 2 <= Hash(h, y.name) {
      var k :| 0 <= k < |ys| && ys[k] == y;
      assert (xs + ys)[i + k] == y;
      KeyBelow(s, ms, h, i, i + k);
    }
  }

  lemma KeyStraddles(s: seq<char>, ms: seq<MapEntry>, h: HashFunction, i: nat, xs: seq<Dirent>, ys: seq<Dirent>)
    requires AllPoint(s, ms, h) && 0 < i < |ms| && xs == Dirents(s, ms[..i]) && ys == Dirents(s, ms[i..])
    requires Separates(h, Key(ms, i), xs, ys)
    ensures Key(ms, i) % 2 == 1 <==> Straddles(h, xs, ys)
  {
    DirentHash(s, ms, h, i);
    DirentHash(s, ms, h, i - 1);
    assert xs[i - 1] == DirentOf(s, ms[i - 1]) && ys[0] == DirentOf(s, ms[i]);
    if Key(ms, i) % 2 == 1 {
      assert xs[i - 1] in xs && ys[0] in ys;
    }
  }

  lemma PartsDistribute(s: seq<char>, ms: seq<MapEntry>, row: Row, end: nat, h: HashFunction, i: nat, key: nat,
                        oldRow: Row, newRow: Row)
    requires SortedMap(s, ms, row, end, h) && 0 < i < |ms| && key == Key(ms, i)
    requires Live(oldRow) == Dirents(s, ms[..i]) && Live(newRow) == Dirents(s, ms[i..])
    ensures Distributed(h, row, oldRow, newRow, key)
  {
    PartsTogether(s, ms, i, Live(oldRow), Live(newRow));
    KeySeparates(s, ms, h, i, Live(oldRow), Live(newRow));
    KeyStraddles(s, ms, h, i, Live(oldRow), Live(newRow));
  }

  lemma PartsTogether(s: seq<char>, ms: seq<MapEntry>, i: nat, xs: seq<Dirent>, ys: seq<Dirent>)
    requires 0 < i < |ms| && xs == Dirents(s, ms[..i]) && ys == Dirents(s, ms[i..])
    ensures xs + ys == Dirents(s, ms) && multiset(xs) + multiset(ys) == multiset(Dirents(s, ms))
    ensures |xs| == i && xs != [] && ys != []
  {
    assert ms[..i] + ms[i..] == ms;
    DirentsConcat(s, ms[..i], ms[i..]);
  }

  /** An item of the lowest hash. */
  ghost predicate Lowest(ms: seq<MapEntry>, m: MapEntry) {
    m in ms && forall x <- ms :: m.hash <= x.hash
  }

  /** The items but m, and half of m, take more than half of a block. */
  predicate Heavy(ms: seq<MapEntry>, m: MapEntry, blockSize: nat) {
    Sum(ms, Size) - m.size + m.size / 2 > blockSize / 2
  }

  ghost predicate AllHeavy(ms: seq<MapEntry>, blockSize: nat) {
    forall m :: Lowest(ms, m) ==> Heavy(ms, m, blockSize)
  }

  ghost predicate AllLight(ms: seq<MapEntry>, blockSize: nat) {
    forall m :: Lowest(ms, m) ==> !Heavy(ms, m, blockSize)
  }

  lemma FirstIsLowest(all: seq<MapEntry>, ms: seq<MapEntry>, blockSize: nat)
    requires multiset(ms) == multiset(all) && Ascending(ms)
    ensures ms == [] <==> all == []
    ensures ms != [] ==> Lowest(all, ms[0])
    ensures ms != [] ==> (Heavy(all, ms[0], blockSize) <==> Sum(ms[1..], Size) + ms[0].size / 2 > blockSize / 2)
  {
    assert |ms| == |multiset(ms)| && |all| == |multiset(all)|;
    if ms != [] {
      assert ms[0] in multiset(all);
      SumFrom(ms, 0);
      assert ms[0..] == ms;
      SumRearranged(all, ms, Size);
      forall x | x in all ensures ms[0].hash <= x.hash {
        assert x in multiset(ms);
      }
    }
  }

  method SortItems(hashMap: array<MapEntry>, count: nat)
    requires count <= hashMap.Length
    modifies hashMap
    ensures Ascending(hashMap[..count]) && multiset(hashMap[..count]) == multiset(old(hashMap[..count]))
  {
    ghost var all := hashMap[..];
    CompareIsTotal();
    Qsort.Sort(hashMap, 0, count, Compare);
    Qsort.ShuffledMiddle(all, hashMap[..], 0, count);
    SortedByHash(hashMap[..], count);
    assert hashMap[..][0..count] == hashMap[..count] && all[0..count] == all[..count];
  }

  lemma SortedByHash(ms: seq<MapEntry>, count: nat)
    requires count <= |ms| && Qsort.Sorted(ms, 0, count, Compare)
    ensures Ascending(ms[..count])
  {
    forall i, j | 0 <= i < j < count ensures ms[..count][i].hash <= ms[..count][j].hash {
      assert Compare(ms[i], ms[j]) <= 0;
    }
  }

  /** Where the sorted items are parted. */
  method Choose(hashMap: array<MapEntry>, count: nat, blockSize: nat, ghost s: seq<char>, ghost row: Row, ghost end: nat, h: HashFunction)
    returns (i: nat, ghost first: MapEntry)
    requires count <= hashMap.Length && SortedMap(s, hashMap[..count], row, end, h) && |s| == blockSize
    ensures MapOf(row, 0, h) == [] ==> i == 0
    ensures MapOf(row, 0, h) != [] ==> Lowest(MapOf(row, 0, h), first) && (i > 0 <==> Heavy(MapOf(row, 0, h), first, blockSize))
    ensures i <= count && (count > 0 ==> i < count)
  {
    ghost var all, ms := MapOf(row, 0, h), hashMap[..count];
    forall k | 0 <= k < count ensures hashMap[k].size <= blockSize {
      PointsSize(s, ms, h, k);
    }
    FirstIsLowest(all, ms, blockSize);
    i := FindSplit(hashMap, count, blockSize);
    first := if count > 0 then ms[0] else MapEntry(0, 0, 0);
  }

  /** The items of a leaf, sorted by hash. */
  method SortMap(buf: array<char>, csum: bool, h: HashFunction, ghost s: seq<char>, ghost row: Row, ghost end: nat)
    returns (hashMap: array<MapEntry>, count: nat)
    requires s == buf[..] && Formed(s, row, csum) && end == |s| - TailSize(csum)
    ensures fresh(hashMap) && count <= hashMap.Length && SortedMap(s, hashMap[..count], row, end, h)
  {
    hashMap, count := ReadMap(buf, csum, h, row);
    SortItems(hashMap, count);
    SortedRight(s, hashMap[..count], row, end, h);
  }

  /** The second part goes to the new leaf, then the first part to the old one, through the same buffer. */
  method MoveBoth(buf: array<char>, hashMap: array<MapEntry>, count: nat, i: nat, csum: bool, h: HashFunction,
                  ghost s: seq<char>, ghost ms: seq<MapEntry>)
    returns (oldLeaf: seq<char>, newLeaf: seq<char>, ghost oldRow: Row, ghost newRow: Row)
    requires s == buf[..] && TAIL <= |s| < U16 && i <= count <= hashMap.Length && ms == hashMap[..count] && AllPoint(s, ms, h)
    requires Sum(ms, Size) <= |s| - TailSize(csum) && Fours(|s| - TailSize(csum))
    ensures |oldLeaf| == |newLeaf| == |s|
    ensures i < count ==> Formed(newLeaf, newRow, csum) && Live(newRow) == Dirents(s, ms[i..]) && Begins(newRow)
    ensures 0 < i ==> Formed(oldLeaf, oldRow, csum) && Live(oldRow) == Dirents(s, ms[..i])
    ensures i == 0 ==> Overlaid(newLeaf, oldLeaf, csum)
  {
    var buf2 := new char[buf.Length];
    PartsFit(s, ms, i, |s| - TailSize(csum), h);
    newRow := MoveDirents(buf, buf2, hashMap, i, count, csum, h, s, ms[i..]);
    newLeaf := buf2[..];
    oldRow := MoveDirents(buf, buf2, hashMap, 0, i, csum, h, s, ms[..i]);
    oldLeaf := buf2[..];
  }

  /** A first record that is stretched over the block is all that is left of a row. */
  lemma OverlaidRow(s: seq<char>, t: seq<char>, csum: bool, row: Row) returns (row': Row)
    requires Formed(s, row, csum) && Begins(row) && Overlaid(s, t, csum)
    ensures Formed(t, row', csum) && Live(row') == [Live(row)[0]]
  {
    var end, r := |s| - TailSize(csum), row.first;
    HoldsTotal(s, 0, end, row);
    EndFours(s, end, row);
    assert SameIn(s[..end], t[..end], HEAD, HEAD + |r.name|);
    row' := Then(r.(len := end), End);
    OverlaidHead(s, t, csum, r);
    assert RecAt(t, 0, row'.first);
  }

  lemma OverlaidHead(s: seq<char>, t: seq<char>, csum: bool, r: Rec)
    requires RecAt(s, 0, r) && Overlaid(s, t, csum) && r.len <= |s| - TailSize(csum)
    ensures Inode(t, 0) == r.inode && NameLen(t, 0) == |r.name| && Kind(t, 0) == r.kind && t[HEAD..HEAD + |r.name|] == r.name
  {
    assert s[HEAD..HEAD + |r.name|] == t[HEAD..HEAD + |r.name|];
  }

  /** A leaf that was not split: all its entries are in the new leaf, and one of the lowest hash is still in the old one. */
  ghost predicate Doubled(h: HashFunction, row: Row, oldRow: Row, newRow: Row) {
    && Live(newRow) != [] && multiset(Live(newRow)) == multiset(NamedLive(row)) && Live(oldRow) == [Live(newRow)[0]]
    && forall x <- Live(newRow) :: Hash(h, Live(oldRow)[0].name) <= Hash(h, x.name)
  }

  lemma NotParted(s: seq<char>, ms: seq<MapEntry>, row: Row, end: nat, h: HashFunction, oldRow: Row, newRow: Row)
    requires SortedMap(s, ms, row, end, h) && ms != []
    requires Live(newRow) == Dirents(s, ms) && Live(oldRow) == [Live(newRow)[0]]
    ensures Doubled(h, row, oldRow, newRow)
  {
    forall x | x in Live(newRow) ensures Hash(h, Live(oldRow)[0].name) <= Hash(h, x.name) {
      var k :| 0 <= k < |ms| && Dirents(s, ms)[k] == x;
      DirentHash(s, ms, h, 0);
      DirentHash(s, ms, h, k);
    }
  }

  /** Both leaves as they are written, before the key is looked for. */
  method Part(buf: array<char>, hashMap: array<MapEntry>, count: nat, i: nat, csum: bool, h: HashFunction,
              ghost s: seq<char>, ghost row: Row, ghost end: nat)
    returns (oldLeaf: seq<char>, newLeaf: seq<char>, key: nat, ghost oldRow: Row, ghost newRow: Row)
    requires s == buf[..] && Formed(s, row, csum) && |s| < U16 && end == |s| - TailSize(csum)
    requires i <= count <= hashMap.Length && (count > 0 ==> i < count) && SortedMap(s, hashMap[..count], row, end, h)
    ensures |oldLeaf| == |newLeaf| == |s| && (i == 0 ==> Overlaid(newLeaf, oldLeaf, csum))
    ensures count > 0 ==> Formed(oldLeaf, oldRow, csum) && Formed(newLeaf, newRow, csum)
    ensures i > 0 ==> Distributed(h, row, oldRow, newRow, key)
    ensures i == 0 < count ==> Doubled(h, row, oldRow, newRow)
  {
    ghost var ms := hashMap[..count];
    EndFours(s, end, row);
    oldLeaf, newLeaf, oldRow, newRow := MoveBoth(buf, hashMap, count, i, csum, h, s, ms);
    key := 0;
    if i > 0 {
      key := hashMap[i].hash + if hashMap[i].hash == hashMap[i - 1].hash then 1 else 0;
      PartsDistribute(s, ms, row, end, h, i, key, oldRow, newRow);
    } else if count > 0 {
      assert ms[0..] == ms;
      oldRow := OverlaidRow(newLeaf, oldLeaf, csum, newRow);
      NotParted(s, ms, row, end, h, oldRow, newRow);
    }
  }

  lemma EndFours(s: seq<char>, end: nat, row: Row)
    requires Holds(s, 0, end, row)
    ensures Fours(end)
  {
    HoldsTotal(s, 0, end, row);
    TotalFours(row);
  }

  /** All items of the lowest hash are heavy, or none is; then it does not matter which of them the sort puts first. */
  lemma WithoutTies(all: seq<MapEntry>, first: MapEntry, blockSize: nat)
    requires Lowest(all, first)
    ensures AllHeavy(all, blockSize) ==> Heavy(all, first, blockSize)
    ensures AllLight(all, blockSize) ==> !Heavy(all, first, blockSize)
  {
  }

  /** Two names behind a free record, in 1024 bytes. */
  function StuckRow(a: string, b: string): (row: Row) {
    Then(Free(260), Then(Rec(524, 12, a, 1), Then(Rec(240, 13, b, 1), End)))
  }

  lemma StuckLengths()
    ensures Fours(260) && Fours(524) && Fours(240) && MinLen(255) == 264 && MinLen(1) == 12
  {
    FoursIs(260);
    FoursIs(524);
    FoursIs(240);
    RoundIs(263);
    RoundIs(9);
  }

  /** No record of it has room for a name of 255 letters, and a search leaves it as it is. */
  lemma StuckIsFull(a: string, b: string, x: Link)
    requires |a| == |x.name| == 255 && |b| == 1
    ensures AllProper(StuckRow(a, b)) && Total(StuckRow(a, b)) == 1024 && !SlackWithNext(StuckRow(a, b), Need(x))
    ensures Search(StuckRow(a, b), x) == Outcome(StuckRow(a, b), false)
  {
    var row := StuckRow(a, b);
    var second := row.rest;
    var third := second.rest;
    StuckLengths();
    assert Total(End) == 0 && Search(End, x) == Outcome(End, false);
    assert AllProper(third) && Total(third) == 240;
    assert LinkOne(third, x) == Outcome(third, false);
    assert Search(third, x) == Outcome(third, false) && !SlackWithNext(third, Need(x));
    assert AllProper(second) && Total(second) == 764 && LinkOne(second, x) == Outcome(second, false);
    assert Search(second, x) == Outcome(second, false) && !SlackWithNext(second, Need(x));
    assert AllProper(row) && Total(row) == 1024 && LinkOne(row, x) == Outcome(row, false);
  }

  lemma StuckMap(h: HashFunction, a: string, b: string)
    requires |a| == 255 && |b| == 1
    ensures MapOf(StuckRow(a, b), 0, h) == [MapEntry(Hash(h, a), 524, 260), MapEntry(Hash(h, b), 240, 784)]
  {
    var row, m, m2 := StuckRow(a, b), MapEntry(Hash(h, a), 524, 260), MapEntry(Hash(h, b), 240, 784);
    var third := row.rest.rest;
    assert MapOf(End, 1024, h) == [];
    assert MapOf(third, 784, h) == [m2] + [];
    assert MapOf(row.rest, 260, h) == [m] + [m2];
    assert [] + ([m] + [m2]) == [m, m2];
  }

  /**
   A full leaf of 1024 bytes that is not split: `dx_link` comes to split it, as no record has room for the name, but the
   entry of the lowest hash is so long that all entries are moved.
   */
  lemma StuckExample(h: HashFunction, a: string, b: string, x: Link)
    requires |a| == |x.name| == 255 && |b| == 1 && Hash(h, a) < Hash(h, b)
    ensures Total(StuckRow(a, b)) == 1024 && AllProper(StuckRow(a, b)) && Search(StuckRow(a, b), x) == Outcome(StuckRow(a, b), false)
    ensures MapOf(StuckRow(a, b), 0, h) != [] && AllLight(MapOf(StuckRow(a, b), 0, h), 1024)
  {
    StuckIsFull(a, b, x);
    StuckMap(h, a, b);
    var m, m2 := MapEntry(Hash(h, a), 524, 260), MapEntry(Hash(h, b), 240, 784);
    assert [m, m2][1..] == [m2] && [m2][1..] == [];
    assert Sum([m2], Size) == 240 + Sum([], Size);
    assert Sum([m, m2], Size) == 524 + Sum([m2], Size);
    forall x | Lowest([m, m2], x) ensures !Heavy([m, m2], x, 1024) {
      assert x == m;
    }
  }

  /**
   `dx_split_leaf`: the entries with a name are distributed over two well-formed leaves, the lower hashes in the old
   one; the key of the new leaf is odd exactly if a hash is in both. It does so exactly if the entries but the first
   of the lowest hash, and half of it, take more than half of a block. Otherwise `split` is false: then all entries are
   written to the new leaf, and one of the lowest hash is left in the old one; and if there are none, both leaves are
   what the buffer happened to hold. What comes then is undefined: it looks for an item before the first one.
   */
  method SplitLeaf(buf: array<char>, csum: bool, h: HashFunction, ghost row: Row)
    returns (split: bool, oldLeaf: seq<char>, newLeaf: seq<char>, key: nat, ghost oldRow: Row, ghost newRow: Row, ghost first: MapEntry)
    requires Formed(buf[..], row, csum) && buf.Length < U16
    ensures MapOf(row, 0, h) == [] ==> !split
    ensures MapOf(row, 0, h) != [] ==> Lowest(MapOf(row, 0, h), first) && (split <==> Heavy(MapOf(row, 0, h), first, buf.Length))
    ensures AllHeavy(MapOf(row, 0, h), buf.Length) ==> (split <==> MapOf(row, 0, h) != [])
    ensures AllLight(MapOf(row, 0, h), buf.Length) ==> !split
    ensures |oldLeaf| == |newLeaf| == buf.Length
    ensures MapOf(row, 0, h) != [] ==> Formed(oldLeaf, oldRow, csum) && Formed(newLeaf, newRow, csum)
    ensures split ==> Distributed(h, row, oldRow, newRow, key)
    ensures !split ==> Overlaid(newLeaf, oldLeaf, csum) && (MapOf(row, 0, h) != [] ==> Doubled(h, row, oldRow, newRow))
  {
    ghost var s, end := buf[..], buf.Length - TailSize(csum);
    var hashMap, count := SortMap(buf, csum, h, s, row, end);
    CountIs(s, hashMap[..count], row, end, h);
    var i;
    i, first := Choose(hashMap, count, buf.Length, s, row, end, h);
    if MapOf(row, 0, h) != [] {
      WithoutTies(MapOf(row, 0, h), first, buf.Length);
    }
    split := i > 0;
    oldLeaf, newLeaf, key, oldRow, newRow := Part(buf, hashMap, count, i, csum, h, s, row, end);
  }

  lemma CountIs(s: seq<char>, ms: seq<MapEntry>, row: Row, end: nat, h: HashFunction)
    requires SortedMap(s, ms, row, end, h)
    ensures ms == [] <==> MapOf(row, 0, h) == []
  {
    assert |ms| == |multiset(ms)| && |MapOf(row, 0, h)| == |multiset(MapOf(row, 0, h))|;
  }
}
