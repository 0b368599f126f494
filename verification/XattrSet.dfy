/**
 Model of how libext2fs/ext_attr.c places extended attributes: the list of a handle, the first part of
 which goes to the inode body and the rest, in order, to a block, each with a budget of bytes.
 */
module XattrSet {
  import opened Bytes
  import opened XattrNames

  /** `struct ext2_xattr`; `external` tells that the value lives in an inode of its own. */
  datatype Attr = Attr(name: string, short: string, index: nat, value: string, external: bool) {
    function Key(): (k: XattrNames.Key) { XattrNames.Key(index, short) }
  }

  /** Index and short name are those this library gives to the name. */
  ghost predicate Named(a: Attr) {
    a.index == Index(a.name) && a.short == Short(a.name)
  }

  /** `EXT2_EXT_ATTR_LEN` and `EXT2_EXT_ATTR_SIZE`, which round up to a multiple of EXT2_EXT_ATTR_PAD. */
  function EntryLen(nameLen: nat): (n: nat) { Round(nameLen + 16) }

  function ValueSize(valueLen: nat): (n: nat) { Round(valueLen) }

  function Space(a: Attr): (n: nat) {
    EntryLen(|a.short|) + if a.external then 0 else ValueSize(|a.value|)
  }

  /** An entry has sixteen bytes and the short name; both it and the value are filled up to a multiple of four. */
  lemma SpaceIs(a: Attr)
    ensures Space(a) == (|a.short| + 19) / 4 * 4 + if a.external then 0 else (|a.value| + 3) / 4 * 4
  {
    RoundIs(|a.short| + 16);
    RoundIs(|a.value|);
  }

  function Spaces(s: seq<Attr>): (w: seq<nat>)
    ensures |w| == |s| && forall k :: 0 <= k < |w| ==> w[k] == Space(s[k])
  {
    seq(|s|, k requires 0 <= k < |s| => Space(s[k]))
  }

  function Total(w: seq<nat>, lo: nat, hi: nat): (n: nat)
    requires hi <= |w|
    decreases hi
  {
    if hi <= lo then 0 else Total(w, lo, hi - 1) + w[hi - 1]
  }

  /** The bytes the attributes lo..hi need. */
  function Used(s: seq<Attr>, lo: nat, hi: nat): (n: nat)
    requires hi <= |s|
  {
    Total(Spaces(s), lo, hi)
  }

  /** `space_used`. */
  method SpaceUsed(s: seq<Attr>, lo: nat, hi: nat) returns (total: nat)
    requires lo <= hi <= |s|
    ensures total == Used(s, lo, hi)
  {
    total := 0;
    for i := lo to hi
      invariant total == Used(s, lo, i)
    {
      total := total + EntryLen(|s[i].short|);
      if !s[i].external {
        total := total + ValueSize(|s[i].value|);
      }
    }
  }

  lemma {:induction false} TotalSplit(w: seq<nat>, lo: nat, mid: nat, hi: nat)
    requires lo <= mid <= hi <= |w|
    ensures Total(w, lo, hi) == Total(w, lo, mid) + Total(w, mid, hi)
    decreases hi
  {
    if mid < hi {
      TotalSplit(w, lo, mid, hi - 1);
    }
  }

  /** The same numbers in another place have the same sum. */
  lemma {:induction false} TotalShift(w: seq<nat>, v: seq<nat>, lo: nat, hi: nat, lo': nat, hi': nat)
    requires lo <= hi <= |w| && lo' <= hi' <= |v| && hi' - lo' == hi - lo
    requires forall k {:trigger w[k]} :: lo <= k < hi ==> v[k - lo + lo'] == w[k]
    ensures Total(v, lo', hi') == Total(w, lo, hi)
    decreases hi
  {
    if lo < hi {
      TotalShift(w, v, lo, hi - 1, lo', hi' - 1);
      assert v[hi' - 1] == w[hi - 1];
    }
  }

  // ----- Lists -----

  /** t is s with x put at place i. */
  ghost predicate With<T>(s: seq<T>, t: seq<T>, i: nat, x: T) {
    i <= |s| && |t| == |s| + 1 &&
    forall k {:trigger t[k]} :: 0 <= k < |t| ==> t[k] == if k < i then s[k] else if k == i then x else s[k - 1]
  }

  /** t is s with the attribute i moved forward to place n. */
  ghost predicate MovedDown<T>(s: seq<T>, t: seq<T>, i: nat, n: nat) {
    n <= i < |s| == |t| && forall k {:trigger t[k]} :: 0 <= k < |t| ==> t[k] == s[FromDown(i, n, k)]
  }

  /** t is s with the attribute i moved back to place n. */
  ghost predicate MovedUp<T>(s: seq<T>, t: seq<T>, i: nat, n: nat) {
    i <= n < |s| == |t| && forall k {:trigger t[k]} :: 0 <= k < |t| ==> t[k] == s[FromUp(i, n, k)]
  }

  /** Where the attributes come from: t[k] is s[from(k)], one to one. */
  function FromDown(i: nat, n: nat, k: nat): (j: nat) {
    if k < n || k > i then k else if k == n then i else k - 1
  }

  function FromUp(i: nat, n: nat, k: nat): (j: nat) {
    if k < i || k > n then k else if k == n then i else k + 1
  }

  // ----- Names -----

  ghost predicate Differ(s: seq<Attr>, i: nat, j: nat)
    requires i < |s| && j < |s|
  {
    s[i].name != s[j].name
  }

  ghost predicate Distinct(s: seq<Attr>) {
    forall i, j :: 0 <= i < |s| && 0 <= j < |s| && i != j ==> Differ(s, i, j)
  }

  ghost predicate AllNamed(s: seq<Attr>) {
    forall i :: 0 <= i < |s| ==> Named(s[i])
  }

  /** No attribute of s has this name. */
  ghost predicate Lacks(s: seq<Attr>, name: string) {
    forall i :: 0 <= i < |s| ==> s[i].name != name
  }

  /** Attributes with one key have one name. */
  lemma KeyIsName(a: Attr, b: Attr)
    requires Named(a) && Named(b) && a.Key() == b.Key()
    ensures a.name == b.name
  {
    NameComposed(a.name);
    NameComposed(b.name);
  }

  // ----- The block part is sorted -----

  ghost predicate Precedes(s: seq<Attr>, i: nat, j: nat)
    requires i < |s| && j < |s|
  {
    Less(s[i].Key(), s[j].Key())
  }

  /** The attributes lo..hi are in order. */
  ghost predicate Sorted(s: seq<Attr>, lo: nat, hi: nat)
    requires hi <= |s|
  {
    forall i, j :: lo <= i < j < hi ==> Precedes(s, i, j)
  }

  /** `xattr_find_position`, among the attributes lo..hi. */
  method FindPosition(s: seq<Attr>, lo: nat, hi: nat, short: string, index: nat) returns (p: nat)
    requires lo <= hi <= |s|
    ensures lo <= p <= hi
    ensures forall i :: lo <= i < p ==> Less(s[i].Key(), Key(index, short))
    ensures p < hi ==> !Less(s[p].Key(), Key(index, short))
  {
    for i := lo to hi
      invariant forall j :: lo <= j < i ==> Less(s[j].Key(), Key(index, short))
    {
      LessTotal(s[i].Key(), Key(index, short));
      if index < s[i].index {
        return i;
      }
      if index > s[i].index {
        continue;
      }
      if |short| < |s[i].short| {
        return i;
      }
      if |short| > |s[i].short| {
        continue;
      }
      // `memcmp(shortname, x->short_name, shortname_len) <= 0`.
      if !BytesLess(s[i].short, short) {
        return i;
      }
    }
    return hi;
  }

  /** x belongs at place p of the sorted part lo..hi. */
  ghost predicate Belongs(s: seq<Attr>, lo: nat, p: nat, hi: nat, x: Attr)
    requires hi <= |s|
  {
    && lo <= p <= hi
    && (forall i :: lo <= i < p ==> Less(s[i].Key(), x.Key()))
    && (forall i :: p <= i < hi ==> Less(x.Key(), s[i].Key()))
  }

  lemma FoundBelongs(s: seq<Attr>, lo: nat, p: nat, hi: nat, x: Attr)
    requires hi <= |s| && lo <= p <= hi && Sorted(s, lo, hi) && Named(x)
    requires forall i :: lo <= i < hi ==> Named(s[i]) && s[i].name != x.name
    requires forall i :: lo <= i < p ==> Less(s[i].Key(), x.Key())
    requires p < hi ==> !Less(s[p].Key(), x.Key())
    ensures Belongs(s, lo, p, hi, x)
  {
    if p < hi {
      if s[p].Key() == x.Key() {
        KeyIsName(s[p], x);
      }
      LessTotal(x.Key(), s[p].Key());
      forall i | p < i < hi ensures Less(x.Key(), s[i].Key()) {
        assert Precedes(s, p, i);
        LessTransitive(x.Key(), s[p].Key(), s[i].Key());
      }
    }
  }

  lemma SortedWith(s: seq<Attr>, t: seq<Attr>, lo: nat, p: nat, x: Attr)
    requires With(s, t, p, x) && Sorted(s, lo, |s|) && Belongs(s, lo, p, |s|, x)
    ensures Sorted(t, lo, |t|)
  {
    forall i, j | lo <= i < j < |t| ensures Precedes(t, i, j) {
      if i != p && j != p {
        assert Precedes(s, if i < p then i else i - 1, if j < p then j else j - 1);
      }
    }
  }

  /** An attribute leaves the sorted part by way of its beginning. */
  lemma SortedDown(s: seq<Attr>, t: seq<Attr>, i: nat, n: nat)
    requires MovedDown(s, t, i, n) && Sorted(s, n, |s|)
    ensures Sorted(t, n + 1, |t|)
  {
    forall a, b | n < a < b < |t| ensures Precedes(t, a, b) {
      assert Precedes(s, FromDown(i, n, a), FromDown(i, n, b));
    }
  }

  /** An attribute from before the sorted part comes to its place p in it; the part then begins one earlier. */
  lemma SortedUp(s: seq<Attr>, t: seq<Attr>, i: nat, n: nat, p: nat)
    requires i < n <= p <= |s| && MovedUp(s, t, i, p - 1) && Sorted(s, n, |s|) && Belongs(s, n, p, |s|, s[i])
    ensures Sorted(t, n - 1, |t|)
  {
    forall a, b | n - 1 <= a < b < |t| ensures Precedes(t, a, b) {
      if a != p - 1 && b != p - 1 {
        assert Precedes(s, FromUp(i, p - 1, a), FromUp(i, p - 1, b));
      }
    }
  }

  lemma SortedUpdate(s: seq<Attr>, lo: nat, i: nat, x: Attr)
    requires i < |s| && Sorted(s, lo, |s|) && (i >= lo ==> x.Key() == s[i].Key())
    ensures Sorted(s[i := x], lo, |s|)
  {
    var t := s[i := x];
    forall a, b | lo <= a < b < |t| ensures Precedes(t, a, b) {
      assert Precedes(s, a, b);
    }
  }

  // ----- One name changes -----

  /** The same attributes, but for the one named x.name, which is x. */
  ghost predicate Replaced(s: seq<Attr>, t: seq<Attr>, x: Attr) {
    && Distinct(t) && AllNamed(t) && x in t
    && forall a: Attr :: a.name != x.name ==> (a in t <==> a in s)
  }

  lemma ReplacedWith(s: seq<Attr>, t: seq<Attr>, i: nat, x: Attr)
    requires Distinct(s) && AllNamed(s) && With(s, t, i, x) && Named(x) && Lacks(s, x.name)
    ensures Replaced(s, t, x)
  {
    forall a, b | 0 <= a < |t| && 0 <= b < |t| && a != b ensures Differ(t, a, b) {
      if a != i && b != i {
        assert Differ(s, if a < i then a else a - 1, if b < i then b else b - 1);
      }
    }
    WithMembers(s, t, i, x);
  }

  lemma WithMembers(s: seq<Attr>, t: seq<Attr>, i: nat, x: Attr)
    requires With(s, t, i, x)
    ensures x in t && forall a: Attr :: a != x ==> (a in t <==> a in s)
  {
    assert t[i] == x;
    forall a: Attr | a in s ensures a in t {
      var k :| 0 <= k < |s| && s[k] == a;
      assert t[if k < i then k else k + 1] == a;
    }
  }

  lemma ReplacedUpdate(s: seq<Attr>, i: nat, x: Attr)
    requires Distinct(s) && AllNamed(s) && i < |s| && Named(x) && x.name == s[i].name
    ensures Replaced(s, s[i := x], x)
  {
    var t := s[i := x];
    assert t[i] == x;
    forall a, b | 0 <= a < |t| && 0 <= b < |t| && a != b ensures Differ(t, a, b) {
      assert Differ(s, a, b);
    }
    forall a: Attr | a.name != x.name && a in s ensures a in t {
      var k :| 0 <= k < |s| && s[k] == a;
      assert t[k] == a;
    }
  }

  lemma ReplacedDown(s: seq<Attr>, t: seq<Attr>, u: seq<Attr>, x: Attr, i: nat, n: nat)
    requires Replaced(s, t, x) && MovedDown(t, u, i, n)
    ensures Replaced(s, u, x)
  {
    forall a, b | 0 <= a < |u| && 0 <= b < |u| && a != b ensures Differ(u, a, b) {
      assert Differ(t, FromDown(i, n, a), FromDown(i, n, b));
    }
    DownMembers(t, u, i, n);
  }

  lemma DownMembers(t: seq<Attr>, u: seq<Attr>, i: nat, n: nat)
    requires MovedDown(t, u, i, n)
    ensures forall a: Attr :: a in u <==> a in t
  {
    forall a: Attr | a in t ensures a in u {
      var k :| 0 <= k < |t| && t[k] == a;
      assert u[if k < n || k > i then k else if k == i then n else k + 1] == a;
    }
  }

  lemma ReplacedUp(s: seq<Attr>, t: seq<Attr>, u: seq<Attr>, x: Attr, i: nat, n: nat)
    requires Replaced(s, t, x) && MovedUp(t, u, i, n)
    ensures Replaced(s, u, x)
  {
    forall a, b | 0 <= a < |u| && 0 <= b < |u| && a != b ensures Differ(u, a, b) {
      assert Differ(t, FromUp(i, n, a), FromUp(i, n, b));
    }
    UpMembers(t, u, i, n);
  }

  lemma UpMembers(t: seq<Attr>, u: seq<Attr>, i: nat, n: nat)
    requires MovedUp(t, u, i, n)
    ensures forall a: Attr :: a in u <==> a in t
  {
    forall a: Attr | a in t ensures a in u {
      var k :| 0 <= k < |t| && t[k] == a;
      assert u[if k < i || k > n then k else if k == i then n else k - 1] == a;
    }
  }

  // ----- Space -----

  lemma TotalUpdate(w: seq<nat>, lo: nat, hi: nat, i: nat, x: nat)
    requires i < |w| && lo <= hi <= |w|
    ensures Total(w[i := x], lo, hi) == Total(w, lo, hi) + if lo <= i < hi then x - w[i] else 0
  {
    var v := w[i := x];
    if lo <= i < hi {
      TotalSplit(w, lo, i, hi);
      TotalSplit(v, lo, i, hi);
      TotalSplit(w, i, i + 1, hi);
      TotalSplit(v, i, i + 1, hi);
      TotalShift(w, v, lo, i, lo, i);
      TotalShift(w, v, i + 1, hi, i + 1, hi);
    } else {
      TotalShift(w, v, lo, hi, lo, hi);
    }
  }

  lemma TotalOne(w: seq<nat>, i: nat)
    requires i < |w|
    ensures Total(w, i, i + 1) == w[i]
  {
    assert Total(w, i, i) == 0;
  }

  /** A sum with one summand in the middle, number i; j is the next. */
  lemma TotalAround(w: seq<nat>, lo: nat, i: nat, j: nat, hi: nat)
    requires lo <= i && j == i + 1 <= hi <= |w|
    ensures Total(w, lo, hi) == Total(w, lo, i) + w[i] + Total(w, j, hi)
  {
    TotalSplit(w, lo, i, hi);
    TotalSplit(w, i, j, hi);
    TotalOne(w, i);
  }

  lemma TotalWith(w: seq<nat>, v: seq<nat>, n: nat, i: nat, x: nat)
    requires n <= i <= |w| && With(w, v, i, x)
    ensures Total(v, 0, n) == Total(w, 0, n)
    ensures Total(v, n, |v|) == Total(w, n, |w|) + x
  {
    TotalShift(w, v, 0, n, 0, n);
    TotalWithTail(w, v, n, i, i + 1, x);
  }

  lemma TotalWithTail(w: seq<nat>, v: seq<nat>, n: nat, i: nat, j: nat, x: nat)
    requires n <= i <= |w| && With(w, v, i, x) && j == i + 1
    ensures Total(v, n, |v|) == Total(w, n, |w|) + x
  {
    assert v[i] == x;
    TotalShift(w, v, n, i, n, i);
    TotalShift(w, v, i, |w|, j, |v|);
    TotalSplit(w, n, i, |w|);
    TotalAround(v, n, i, j, |v|);
  }

  lemma TotalNext(w: seq<nat>, lo: nat, hi: nat)
    requires lo <= hi < |w|
    ensures Total(w, lo, hi + 1) == Total(w, lo, hi) + w[hi]
  {
  }

  lemma TotalDown(w: seq<nat>, v: seq<nat>, i: nat, n: nat)
    requires MovedDown(w, v, i, n)
    ensures Total(v, 0, n + 1) == Total(w, 0, n) + w[i]
    ensures Total(v, n + 1, |v|) == Total(w, n, |w|) - w[i]
  {
    assert v[n] == w[i];
    TotalShift(w, v, 0, n, 0, n);
    TotalNext(v, 0, n);
    TotalDownTail(w, v, i, i + 1, n, n + 1);
  }

  lemma TotalDownTail(w: seq<nat>, v: seq<nat>, i: nat, j: nat, n: nat, m: nat)
    requires MovedDown(w, v, i, n) && j == i + 1 && m == n + 1
    ensures Total(v, m, |v|) == Total(w, n, |w|) - w[i]
  {
    TotalShift(w, v, n, i, m, j);
    TotalShift(w, v, j, |w|, j, |v|);
    TotalAround(w, n, i, j, |w|);
    TotalSplit(v, m, j, |v|);
  }

  lemma TotalUp(w: seq<nat>, v: seq<nat>, i: nat, n: nat, p: nat)
    requires i < n <= p <= |w| && MovedUp(w, v, i, p - 1)
    ensures Total(v, 0, n - 1) == Total(w, 0, n) - w[i]
    ensures Total(v, n - 1, |v|) == Total(w, n, |w|) + w[i]
  {
    TotalUpHead(w, v, i, n, p);
    TotalUpTail(w, v, i, n, n - 1, p, p - 1);
  }

  lemma TotalUpHead(w: seq<nat>, v: seq<nat>, i: nat, n: nat, p: nat)
    requires i < n <= p <= |w| && MovedUp(w, v, i, p - 1)
    ensures Total(v, 0, n - 1) == Total(w, 0, n) - w[i]
  {
    TotalShift(w, v, 0, i, 0, i);
    TotalShift(w, v, i + 1, n, i, n - 1);
    TotalAround(w, 0, i, i + 1, n);
    TotalSplit(v, 0, i, n - 1);
  }

  lemma TotalUpTail(w: seq<nat>, v: seq<nat>, i: nat, n: nat, m: nat, p: nat, q: nat)
    requires i < n <= p <= |w| && m + 1 == n && q + 1 == p && MovedUp(w, v, i, q)
    ensures Total(v, m, |v|) == Total(w, n, |w|) + w[i]
  {
    assert v[q] == w[i];
    TotalShift(w, v, n, p, m, q);
    TotalShift(w, v, p, |w|, p, |v|);
    TotalSplit(w, n, p, |w|);
    TotalAround(v, m, q, p, |v|);
  }

  // ----- The handle -----

  datatype Error = Ok | NoSpace

  /** The attribute that a name is set to. */
  function Made(name: string, value: string, inInode: bool): (a: Attr) {
    Attr(name, Short(name), Index(name), value, inInode)
  }

  lemma SpacesUpdate(s: seq<Attr>, i: nat, x: Attr)
    requires i < |s|
    ensures Spaces(s[i := x]) == Spaces(s)[i := Space(x)]
  {
  }

  /** The list without the attribute i. */
  function Dropped(s: seq<Attr>, i: nat): (t: seq<Attr>)
    requires i < |s|
  {
    s[..i] + s[i + 1..]
  }

  /** The attributes of the inode body after number i of all has become x, or x is new: it is in the body exactly if it fits. */
  function BodyAfter(body: seq<Attr>, i: int, x: Attr, fits: bool): (t: seq<Attr>) {
    if 0 <= i < |body| then (if fits then body[i := x] else Dropped(body, i))
    else if fits then body + [x] else body
  }

  lemma DroppedSame(s: seq<Attr>, i: nat, x: Attr)
    requires i < |s|
    ensures Dropped(s[i := x], i) == Dropped(s, i)
  {
  }

  lemma BodyMovedDown(s: seq<Attr>, t: seq<Attr>, i: nat, n: nat)
    requires MovedDown(s, t, i, n)
    ensures t[..n + 1] == s[..n] + [s[i]]
  {
    var a, b := t[..n + 1], s[..n] + [s[i]];
    forall k | 0 <= k < |a| ensures a[k] == b[k] {
      assert a[k] == t[k];
    }
  }

  lemma BodyMovedUp(s: seq<Attr>, t: seq<Attr>, i: nat, n: nat, m: nat, p: nat)
    requires i < n <= p <= |s| && m + 1 == n && MovedUp(s, t, i, p - 1)
    ensures t[..m] == Dropped(s[..n], i)
  {
    var a, b := t[..m], Dropped(s[..n], i);
    forall k | 0 <= k < |a| ensures a[k] == b[k] {
      assert a[k] == t[k];
    }
  }

  lemma BodyWith(s: seq<Attr>, t: seq<Attr>, n: nat, p: nat, x: Attr)
    requires With(s, t, p, x) && n <= p <= |s|
    ensures t[..n] == s[..n] && (p == n ==> t[..n + 1] == s[..n] + [x])
  {
    forall k | 0 <= k < n ensures t[k] == s[k] {
    }
    assert t[n] == if p == n then x else s[n];
  }

  /** `struct ext2_xattr_handle`. */
  class Handle {
    var attrs: seq<Attr>
    var ibodyCount: nat

    ghost predicate Valid()
      reads this
    {
      ibodyCount <= |attrs| && Distinct(attrs) && AllNamed(attrs) && Sorted(attrs, ibodyCount, |attrs|)
    }

    /** The attributes in the inode body; the others are in the block, sorted. */
    ghost function Body(): (s: seq<Attr>)
      requires ibodyCount <= |attrs|
      reads this
    {
      attrs[..ibodyCount]
    }

    /** The bytes used in the inode body and in the block. */
    ghost function IbodyUsed(): (n: nat)
      requires ibodyCount <= |attrs|
      reads this
    {
      Used(attrs, 0, ibodyCount)
    }

    ghost function BlockUsed(): (n: nat)
      requires ibodyCount <= |attrs|
      reads this
    {
      Used(attrs, ibodyCount, |attrs|)
    }

    /** `ext2fs_xattrs_open`. */
    constructor ()
      ensures Valid() && attrs == [] && ibodyCount == 0
    {
      attrs, ibodyCount := [], 0;
    }

    /** `xattr_update_entry` on an attribute of the list: it keeps its name and short name. */
    method UpdateEntry(i: nat, index: nat, value: string, inInode: bool)
      requires i < |attrs|
      modifies `attrs
      ensures attrs == old(attrs)[i := old(attrs)[i].(index := index, value := value, external := inInode)]
    {
      attrs := attrs[i := attrs[i].(index := index, value := value, external := inInode)];
    }

    /** The attribute i is set where it is. */
    method SetInPlace(i: nat, name: string, index: nat, value: string, inInode: bool)
      requires Valid() && i < |attrs| && attrs[i].name == name && index == Index(name)
      modifies `attrs
      ensures Valid() && attrs == old(attrs)[i := Made(name, value, inInode)]
      ensures Replaced(old(attrs), attrs, Made(name, value, inInode))
      ensures Body() == if i < ibodyCount then old(Body())[i := Made(name, value, inInode)] else old(Body())
      ensures IbodyUsed() == old(IbodyUsed())
                             + if i < ibodyCount then Space(attrs[i]) - old(Space(attrs[i])) else 0
      ensures BlockUsed() == old(BlockUsed())
                             + if i < ibodyCount then 0 else Space(attrs[i]) - old(Space(attrs[i]))
    {
      ghost var s, x := attrs, Made(name, value, inInode);
      assert Named(attrs[i]);
      UpdateEntry(i, index, value, inInode);
      assert attrs == s[i := x];
      ReplacedUpdate(s, i, x);
      SortedUpdate(s, ibodyCount, i, x);
      SpacesUpdate(s, i, x);
      TotalUpdate(Spaces(s), 0, ibodyCount, i, Space(x));
      TotalUpdate(Spaces(s), ibodyCount, |s|, i, Space(x));
    }

    /** The attribute i of the block moves to the end of the inode body. */
    method MoveToIbody(i: nat)
      requires Valid() && ibodyCount <= i < |attrs|
      modifies this
      ensures Valid() && MovedDown(old(attrs), attrs, i, old(ibodyCount)) && ibodyCount == old(ibodyCount) + 1
      ensures Body() == old(Body()) + [old(attrs[i])]
      ensures IbodyUsed() == old(IbodyUsed()) + old(Space(attrs[i])) && BlockUsed() == old(BlockUsed()) - old(Space(attrs[i]))
    {
      ghost var s, n := attrs, ibodyCount;
      DownSlices(s, i, n);
      attrs := attrs[..ibodyCount] + [attrs[i]] + attrs[ibodyCount..i] + attrs[i + 1..];
      ibodyCount := ibodyCount + 1;
      DownKept(s, attrs, i, n);
      BodyMovedDown(s, attrs, i, n);
    }

    /** The attribute i of the inode body moves to place p, where it belongs in the block. */
    method MoveToBlock(i: nat, p: nat)
      requires Valid() && i < ibodyCount && Belongs(attrs, ibodyCount, p, |attrs|, attrs[i])
      modifies this
      ensures Valid() && MovedUp(old(attrs), attrs, i, p - 1) && ibodyCount == old(ibodyCount) - 1
      ensures Body() == Dropped(old(Body()), i)
      ensures IbodyUsed() == old(IbodyUsed()) - old(Space(attrs[i])) && BlockUsed() == old(BlockUsed()) + old(Space(attrs[i]))
    {
      ghost var s, n := attrs, ibodyCount;
      var newIdx := p - 1;
      UpSlices(s, i, newIdx);
      attrs := attrs[..i] + attrs[i + 1..newIdx + 1] + [attrs[i]] + attrs[newIdx + 1..];
      ibodyCount := ibodyCount - 1;
      UpKept(s, attrs, i, n, p);
      BodyMovedUp(s, attrs, i, n, ibodyCount, p);
    }

    /** `add_new`: at the end of the inode body, or where it belongs in the block. */
    method AddNew(newIdx: nat, x: Attr, addToIbody: bool)
      requires Valid() && Named(x) && Lacks(attrs, x.name)
      requires if addToIbody then newIdx == ibodyCount else Belongs(attrs, ibodyCount, newIdx, |attrs|, x)
      modifies this
      ensures Valid() && Replaced(old(attrs), attrs, x)
      ensures Body() == BodyAfter(old(Body()), -1, x, addToIbody)
      ensures IbodyUsed() == old(IbodyUsed()) + if addToIbody then Space(x) else 0
      ensures BlockUsed() == old(BlockUsed()) + if addToIbody then 0 else Space(x)
    {
      ghost var s, n := attrs, ibodyCount;
      WithSlices(s, newIdx, x);
      attrs := attrs[..newIdx] + [x] + attrs[newIdx..];
      ReplacedWith(s, attrs, newIdx, x);
      BodyWith(s, attrs, n, newIdx, x);
      if addToIbody {
        AddedInFront(s, attrs, n, x);
        ibodyCount := ibodyCount + 1;
      } else {
        AddedBehind(s, attrs, n, newIdx, x);
      }
    }

    /** An attribute that is there is set, and goes to the inode body if it is in the block. */
    method SetInIbody(i: nat, name: string, index: nat, value: string, inInode: bool)
      requires Valid() && i < |attrs| && attrs[i].name == name && index == Index(name)
      modifies this
      ensures Valid() && Replaced(old(attrs), attrs, Made(name, value, inInode))
      ensures Body() == BodyAfter(old(Body()), i, Made(name, value, inInode), true)
      ensures IbodyUsed() == old(IbodyUsed()) + Space(Made(name, value, inInode))
                             - if i < old(ibodyCount) then old(Space(attrs[i])) else 0
      ensures BlockUsed() <= old(BlockUsed())
    {
      ghost var s, x := attrs, Made(name, value, inInode);
      UsedAt(attrs, ibodyCount, i);
      SetInPlace(i, name, index, value, inInode);
      if ibodyCount <= i {
        ghost var t, n := attrs, ibodyCount;
        MoveToIbody(i);
        ReplacedDown(s, t, attrs, x, i, n);
      }
    }

    /** An attribute that is there is set, and goes to its place in the block if it is in the inode body. */
    method SetInBlock(i: nat, name: string, short: string, index: nat, value: string, inInode: bool)
      requires Valid() && i < |attrs| && attrs[i].name == name && index == Index(name) && short == Short(name)
      modifies this
      ensures Valid() && Replaced(old(attrs), attrs, Made(name, value, inInode))
      ensures Body() == BodyAfter(old(Body()), i, Made(name, value, inInode), false)
      ensures IbodyUsed() <= old(IbodyUsed())
      ensures BlockUsed() == old(BlockUsed()) + Space(Made(name, value, inInode))
                             - if i < old(ibodyCount) then 0 else old(Space(attrs[i]))
    {
      ghost var s, x := attrs, Made(name, value, inInode);
      UsedAt(attrs, ibodyCount, i);
      SetInPlace(i, name, index, value, inInode);
      if i < ibodyCount {
        ghost var t := attrs;
        DroppedSame(s[..ibodyCount], i, x);
        ghost var p := FindAndMove(i, short, index);
        ReplacedUp(s, t, attrs, x, i, p - 1);
      }
    }

    /** The attribute i of the inode body moves to where it belongs in the block. */
    method FindAndMove(i: nat, short: string, index: nat) returns (ghost p: nat)
      requires Valid() && i < ibodyCount && attrs[i].Key() == Key(index, short)
      modifies this
      ensures Valid() && ibodyCount == old(ibodyCount) - 1 && i < p && MovedUp(old(attrs), attrs, i, p - 1)
      ensures Body() == Dropped(old(Body()), i)
      ensures IbodyUsed() == old(IbodyUsed()) - old(Space(attrs[i])) && BlockUsed() == old(BlockUsed()) + old(Space(attrs[i]))
    {
      OthersLack(attrs, ibodyCount, i);
      var q := FindPosition(attrs, ibodyCount, |attrs|, short, index);
      FoundBelongs(attrs, ibodyCount, q, |attrs|, attrs[i]);
      MoveToBlock(i, q);
      p := q;
    }

    /** The bytes that are given back when the attribute oldIdx is replaced, in the inode body or in the block. */
    function Freed(oldIdx: int, inBody: bool): (n: nat)
      requires oldIdx < |attrs| && ibodyCount <= |attrs|
      reads this
    {
      if 0 <= oldIdx && (oldIdx < ibodyCount <==> inBody) then Space(attrs[oldIdx]) else 0
    }

    /**
     `xattr_array_update`: the attribute goes to the inode body if it fits there, else to the block. It fails
     exactly when it fits in neither, and then nothing changes.
     */
    method ArrayUpdate(name: string, value: string, ibodyFree: int, blockFree: int, oldIdx: int, inInode: bool)
      returns (err: Error)
      requires Valid() && oldIdx < |attrs|
      requires if oldIdx < 0 then Lacks(attrs, name) else attrs[oldIdx].name == name
      modifies this
      ensures Valid()
      ensures err == NoSpace <==> Space(Made(name, value, inInode)) > ibodyFree + old(Freed(oldIdx, true)) &&
                                  Space(Made(name, value, inInode)) > blockFree + old(Freed(oldIdx, false))
      ensures err == NoSpace ==> attrs == old(attrs) && ibodyCount == old(ibodyCount)
      ensures err == Ok ==> Replaced(old(attrs), attrs, Made(name, value, inInode))
      ensures err == Ok ==> Body() == BodyAfter(old(Body()), oldIdx, Made(name, value, inInode),
                                                Space(Made(name, value, inInode)) <= ibodyFree + old(Freed(oldIdx, true)))
      ensures IbodyUsed() <= old(IbodyUsed()) || IbodyUsed() <= old(IbodyUsed()) + ibodyFree
      ensures BlockUsed() <= old(BlockUsed()) || BlockUsed() <= old(BlockUsed()) + blockFree
    {
      var short, index := FindIndex(name);
      var needed := EntryLen(|short|) + if inInode then 0 else ValueSize(|value|);
      var ibf, bf := ibodyFree, blockFree;
      if 0 <= oldIdx {
        assert Named(attrs[oldIdx]);
      }
      if 0 <= oldIdx < ibodyCount {
        ibf := ibf + EntryLen(|short|) + if attrs[oldIdx].external then 0 else ValueSize(|attrs[oldIdx].value|);
      }
      if needed <= ibf {
        if oldIdx < 0 {
          AddNew(ibodyCount, Attr(name, short, index, value, inInode), true);
        } else {
          SetInIbody(oldIdx, name, index, value, inInode);
        }
        return Ok;
      }
      if ibodyCount <= oldIdx {
        bf := bf + EntryLen(|short|) + if attrs[oldIdx].external then 0 else ValueSize(|attrs[oldIdx].value|);
      }
      if needed > bf {
        return NoSpace;
      }
      if oldIdx >= 0 {
        SetInBlock(oldIdx, name, short, index, value, inInode);
        return Ok;
      }
      AddToBlock(name, short, index, value, inInode);
      return Ok;
    }

    /** A new attribute, put where it belongs in the block. */
    method AddToBlock(name: string, short: string, index: nat, value: string, inInode: bool)
      requires Valid() && Lacks(attrs, name) && short == Short(name) && index == Index(name)
      modifies this
      ensures Valid() && Replaced(old(attrs), attrs, Made(name, value, inInode)) && Body() == old(Body())
      ensures IbodyUsed() == old(IbodyUsed()) && BlockUsed() == old(BlockUsed()) + Space(Made(name, value, inInode))
    {
      var x := Attr(name, short, index, value, inInode);
      var p := FindPosition(attrs, ibodyCount, |attrs|, short, index);
      FoundBelongs(attrs, ibodyCount, p, |attrs|, x);
      AddNew(p, x, false);
    }

    /** The first attribute with a name, or -1. */
    method Find(name: string) returns (i: int)
      ensures -1 <= i < |attrs|
      ensures if i < 0 then Lacks(attrs, name) else attrs[i].name == name
    {
      for k := 0 to |attrs|
        invariant forall j :: 0 <= j < k ==> attrs[j].name != name
      {
        if attrs[k].name == name {
          return k;
        }
      }
      return -1;
    }

    /** `ext2fs_xattr_get`. */
    method Get(name: string) returns (found: bool, value: string)
      requires Valid()
      ensures if found then forall a: Attr :: a in attrs && a.name == name ==> a.value == value else Lacks(attrs, name)
      ensures found ==> exists a: Attr :: a in attrs && a.name == name
    {
      var i := Find(name);
      if i < 0 {
        return false, "";
      }
      OnlyOne(attrs, i);
      return true, attrs[i].value;
    }

    /** Attribute number i of the list has the name; or none has, and i is negative. */
    ghost predicate At(i: int, name: string)
      reads this
    {
      i < |attrs| && if i < 0 then Lacks(attrs, name) else attrs[i].name == name
    }

    /** An attribute fits in the inode body, or in the block, in place of number i. */
    ghost predicate FitsBody(i: int, x: Attr, bodyRoom: int)
      requires i < |attrs| && ibodyCount <= |attrs|
      reads this
    {
      IbodyUsed() + Space(x) <= bodyRoom + if 0 <= i < ibodyCount then Space(attrs[i]) else 0
    }

    ghost predicate FitsBlock(i: int, x: Attr, blockRoom: int)
      requires i < |attrs| && ibodyCount <= |attrs|
      reads this
    {
      BlockUsed() + Space(x) <= blockRoom + if ibodyCount <= i then Space(attrs[i]) else 0
    }

    ghost predicate FitsSomewhere(i: int, x: Attr, bodyRoom: int, blockRoom: int)
      requires i < |attrs| && ibodyCount <= |attrs|
      reads this
    {
      FitsBody(i, x, bodyRoom) || (x.name != "system.data" && FitsBlock(i, x, blockRoom))
    }

    /** The value is there already, and not in an inode of its own. */
    ghost predicate Same(i: int, value: string)
      requires i < |attrs|
      reads this
    {
      i >= 0 && !attrs[i].external && attrs[i].value == value
    }

    /** Whether a value goes to an inode of its own: if that can be, and it is large or does not fit otherwise. */
    ghost predicate GoesOut(i: int, name: string, value: string, bodyRoom: int, blockRoom: int, largeSize: int, eaInode: bool)
      requires i < |attrs| && ibodyCount <= |attrs|
      reads this
    {
      name != "system.data" && eaInode &&
      (|value| > largeSize || !FitsSomewhere(i, Made(name, value, false), bodyRoom, blockRoom))
    }

    /**
     `ext2fs_xattr_set`, with the bytes there are for attributes in the inode body and in the block; i is the number of the
     attribute with the name. What is set can be read back, the other attributes stay where they are, and neither part
     outgrows its room. The value goes to the body if it fits there, else to the block; if it fits in neither there is no
     room, and nothing changes. Nor does it if inline data is found in the block.
     */
    method Set(name: string, value: string, bodyRoom: int, blockRoom: int, largeSize: int, eaInode: bool)
      returns (err: SetError, ghost x: Attr, ghost i: int)
      requires Valid()
      modifies this
      ensures Valid() && old(At(i, name))
      ensures err != Done ==> attrs == old(attrs) && ibodyCount == old(ibodyCount)
      ensures err == Done ==> x.name == name && x.value == value && Replaced(old(attrs), attrs, x)
      ensures old(Same(i, value)) ==> err == Done && attrs == old(attrs) && ibodyCount == old(ibodyCount) && x == old(attrs)[i]
      ensures !old(Same(i, value)) ==> x == Made(name, value, old(GoesOut(i, name, value, bodyRoom, blockRoom, largeSize, eaInode)))
      ensures !old(Same(i, value)) ==>
                err == if name == "system.data" && old(ibodyCount) <= i then Corrupted
                       else if old(FitsSomewhere(i, x, bodyRoom, blockRoom)) then Done else Full
      ensures !old(Same(i, value)) && err == Done ==> Body() == BodyAfter(old(Body()), i, x, old(FitsBody(i, x, bodyRoom)))
      ensures old(IbodyUsed()) <= bodyRoom ==> IbodyUsed() <= bodyRoom
      ensures old(BlockUsed()) <= blockRoom ==> BlockUsed() <= blockRoom
    {
      x := Made(name, value, false);
      var oldIdx := Find(name);
      i := oldIdx;
      if oldIdx >= 0 && !attrs[oldIdx].external && attrs[oldIdx].value == value {
        x := attrs[oldIdx];
        assert attrs == attrs[oldIdx := x];
        ReplacedUpdate(attrs, oldIdx, x);
        return Done, x, i;
      }
      var used := SpaceUsed(attrs, 0, ibodyCount);
      var ibodyFree := bodyRoom - used;
      if name == "system.data" {
        err := SetData(value, bodyRoom, ibodyFree, oldIdx);
        return;
      }
      used := SpaceUsed(attrs, ibodyCount, |attrs|);
      var blockFree := blockRoom - used;
      err, x := SetOther(name, value, bodyRoom, blockRoom, ibodyFree, blockFree, largeSize, eaInode, oldIdx);
    }

    /** Inline data can only go to the inode body. */
    method SetData(value: string, ghost bodyRoom: int, ibodyFree: int, oldIdx: int) returns (err: SetError)
      requires Valid() && At(oldIdx, "system.data") && ibodyFree == bodyRoom - IbodyUsed()
      modifies this
      ensures Valid() && (err != Done ==> attrs == old(attrs) && ibodyCount == old(ibodyCount))
      ensures var x := Made("system.data", value, false);
              && (err == if old(ibodyCount) <= oldIdx then Corrupted else if old(FitsBody(oldIdx, x, bodyRoom)) then Done else Full)
              && (err == Done ==> Replaced(old(attrs), attrs, x) && Body() == BodyAfter(old(Body()), oldIdx, x, true))
      ensures old(IbodyUsed()) <= bodyRoom ==> IbodyUsed() <= bodyRoom
      ensures BlockUsed() <= old(BlockUsed())
    {
      if ibodyCount <= oldIdx {
        return Corrupted;
      }
      EntryTakes(Made("system.data", value, false));
      var e := ArrayUpdate("system.data", value, ibodyFree, 0, oldIdx, false);
      return if e == Ok then Done else Full;
    }

    /** Other values go to either part, or to an inode of their own. */
    method SetOther(name: string, value: string, ghost bodyRoom: int, ghost blockRoom: int, ibodyFree: int, blockFree: int,
                    largeSize: int, eaInode: bool, oldIdx: int)
      returns (err: SetError, ghost x: Attr)
      requires Valid() && At(oldIdx, name) && name != "system.data"
      requires ibodyFree == bodyRoom - IbodyUsed() && blockFree == blockRoom - BlockUsed()
      modifies this
      ensures Valid() && (err != Done ==> attrs == old(attrs) && ibodyCount == old(ibodyCount))
      ensures x == Made(name, value, old(GoesOut(oldIdx, name, value, bodyRoom, blockRoom, largeSize, eaInode)))
      ensures err == if old(FitsSomewhere(oldIdx, x, bodyRoom, blockRoom)) then Done else Full
      ensures err == Done ==> Replaced(old(attrs), attrs, x) && Body() == BodyAfter(old(Body()), oldIdx, x, old(FitsBody(oldIdx, x, bodyRoom)))
      ensures old(IbodyUsed()) <= bodyRoom ==> IbodyUsed() <= bodyRoom
      ensures old(BlockUsed()) <= blockRoom ==> BlockUsed() <= blockRoom
    {
      var inInode := eaInode && |value| > largeSize;
      var e := ArrayUpdate(name, value, ibodyFree, blockFree, oldIdx, inInode);
      x := Made(name, value, inInode);
      if e == NoSpace && !inInode && eaInode {
        e := ArrayUpdate(name, value, ibodyFree, blockFree, oldIdx, true);
        x := Made(name, value, true);
      }
      err := if e == Ok then Done else Full;
    }

    /** `ext2fs_xattr_remove`. */
    method Remove(name: string)
      requires Valid()
      modifies this
      ensures Valid() && Lacks(attrs, name) && forall a: Attr :: a.name != name ==> (a in attrs <==> a in old(attrs))
      ensures IbodyUsed() <= old(IbodyUsed()) && BlockUsed() <= old(BlockUsed())
    {
      var i := Find(name);
      if i >= 0 {
        ghost var s, n := attrs, ibodyCount;
        var t := attrs[..i] + attrs[i + 1..];
        var m: nat := if i < ibodyCount then ibodyCount - 1 else ibodyCount;
        WithoutSlices(s, i);
        RemovedKept(s, t, i, n, m);
        RemovedUsed(s, t, i, n, m);
        attrs, ibodyCount := t, m;
      }
    }
  }

  datatype SetError = Done | Full | Corrupted

  /** Every attribute takes some space. */
  lemma EntryTakes(x: Attr)
    ensures Space(x) > 0
  {
    RoundIs(|x.short| + 16);
  }

  lemma OnlyOne(s: seq<Attr>, i: nat)
    requires Distinct(s) && i < |s|
    ensures s[i] in s && forall a: Attr :: a in s && a.name == s[i].name ==> a == s[i]
  {
    forall a: Attr | a in s && a.name == s[i].name ensures a == s[i] {
      var k :| 0 <= k < |s| && s[k] == a;
      assert k != i ==> Differ(s, k, i);
    }
  }

  /** t is s without the attribute i: s is t with it. */
  lemma WithoutSlices(s: seq<Attr>, i: nat)
    requires i < |s|
    ensures With(s[..i] + s[i + 1..], s, i, s[i])
  {
  }

  lemma RemovedKept(s: seq<Attr>, t: seq<Attr>, i: nat, n: nat, m: nat)
    requires i < |s| && n <= |s| && With(t, s, i, s[i]) && Distinct(s) && AllNamed(s) && Sorted(s, n, |s|)
    requires m == if i < n then n - 1 else n
    ensures m <= |t| && Distinct(t) && AllNamed(t) && Lacks(t, s[i].name) && Sorted(t, m, |t|)
    ensures forall a: Attr :: a.name != s[i].name ==> (a in t <==> a in s)
  {
    forall a, b | 0 <= a < |t| && 0 <= b < |t| && a != b ensures Differ(t, a, b) {
      RemovedAt(s, t, i, a);
      RemovedAt(s, t, i, b);
      assert Differ(s, if a < i then a else a + 1, if b < i then b else b + 1);
    }
    forall a | 0 <= a < |t| ensures Named(t[a]) && t[a].name != s[i].name {
      RemovedAt(s, t, i, a);
      assert Differ(s, if a < i then a else a + 1, i);
    }
    forall a, b | m <= a < b < |t| ensures Precedes(t, a, b) {
      RemovedAt(s, t, i, a);
      RemovedAt(s, t, i, b);
      assert Precedes(s, if a < i then a else a + 1, if b < i then b else b + 1);
    }
    WithMembers(t, s, i, s[i]);
  }

  lemma RemovedAt(s: seq<Attr>, t: seq<Attr>, i: nat, a: nat)
    requires i < |s| && With(t, s, i, s[i]) && a < |t|
    ensures t[a] == s[if a < i then a else a + 1]
  {
    assert s[if a < i then a else a + 1] == t[a];
  }

  lemma RemovedUsed(s: seq<Attr>, t: seq<Attr>, i: nat, n: nat, m: nat)
    requires i < |s| && n <= |s| && With(t, s, i, s[i])
    requires m == if i < n then n - 1 else n
    ensures Used(t, 0, m) <= Used(s, 0, n) && Used(t, m, |t|) <= Used(s, n, |s|)
  {
    var w, v := Spaces(s), Spaces(t);
    SpacesWith(t, s, i, s[i]);
    if i < n {
      TotalWithout(w, v, i, n, m);
    } else {
      TotalWith(v, w, n, i, w[i]);
    }
  }

  /** One number less in the first part. */
  lemma TotalWithout(w: seq<nat>, v: seq<nat>, i: nat, n: nat, m: nat)
    requires i < n <= |w| && m + 1 == n && With(v, w, i, w[i])
    ensures Total(v, 0, m) <= Total(w, 0, n) && Total(v, m, |v|) == Total(w, n, |w|)
  {
    TotalAround(w, 0, i, i + 1, n);
    TotalShift(w, v, 0, i, 0, i);
    TotalShift(w, v, i + 1, n, i, m);
    TotalSplit(v, 0, i, m);
    TotalShift(w, v, n, |w|, m, |v|);
  }

  /** An attribute takes no more than the part it is in. */
  lemma UsedAt(s: seq<Attr>, n: nat, i: nat)
    requires n <= |s| && i < |s|
    ensures if i < n then Space(s[i]) <= Used(s, 0, n) else Space(s[i]) <= Used(s, n, |s|)
  {
    if i < n {
      TotalAround(Spaces(s), 0, i, i + 1, n);
    } else {
      TotalAround(Spaces(s), n, i, i + 1, |s|);
    }
  }

  lemma OthersLack(s: seq<Attr>, n: nat, i: nat)
    requires Distinct(s) && AllNamed(s) && i < n <= |s|
    ensures forall k :: n <= k < |s| ==> Named(s[k]) && s[k].name != s[i].name
  {
    forall k | n <= k < |s| ensures s[k].name != s[i].name {
      assert Differ(s, k, i);
    }
  }

  lemma DownSlices(s: seq<Attr>, i: nat, n: nat)
    requires n <= i < |s|
    ensures MovedDown(s, s[..n] + [s[i]] + s[n..i] + s[i + 1..], i, n)
  {
  }

  lemma UpSlices(s: seq<Attr>, i: nat, n: nat)
    requires i <= n < |s|
    ensures MovedUp(s, s[..i] + s[i + 1..n + 1] + [s[i]] + s[n + 1..], i, n)
  {
  }

  lemma WithSlices(s: seq<Attr>, i: nat, x: Attr)
    requires i <= |s|
    ensures With(s, s[..i] + [x] + s[i..], i, x)
  {
  }

  /** Moving keeps names apart and right, and takes the space along. */
  lemma DownKept(s: seq<Attr>, t: seq<Attr>, i: nat, n: nat)
    requires Distinct(s) && AllNamed(s) && MovedDown(s, t, i, n) && Sorted(s, n, |s|)
    ensures Distinct(t) && AllNamed(t) && Sorted(t, n + 1, |t|)
    ensures Used(t, 0, n + 1) == Used(s, 0, n) + Space(s[i])
    ensures Used(t, n + 1, |t|) == Used(s, n, |s|) - Space(s[i])
  {
    assert s[i] in s;
    ReplacedDown(s, s, t, s[i], i, n);
    SortedDown(s, t, i, n);
    SpacesDown(s, t, i, n);
    TotalDown(Spaces(s), Spaces(t), i, n);
  }

  lemma SpacesDown(s: seq<Attr>, t: seq<Attr>, i: nat, n: nat)
    requires MovedDown(s, t, i, n)
    ensures MovedDown(Spaces(s), Spaces(t), i, n)
  {
  }

  lemma UpKept(s: seq<Attr>, t: seq<Attr>, i: nat, n: nat, p: nat)
    requires Distinct(s) && AllNamed(s) && i < n <= p <= |s| && MovedUp(s, t, i, p - 1)
    requires Sorted(s, n, |s|) && Belongs(s, n, p, |s|, s[i])
    ensures Distinct(t) && AllNamed(t) && Sorted(t, n - 1, |t|)
    ensures Used(t, 0, n - 1) == Used(s, 0, n) - Space(s[i])
    ensures Used(t, n - 1, |t|) == Used(s, n, |s|) + Space(s[i])
  {
    assert s[i] in s;
    ReplacedUp(s, s, t, s[i], i, p - 1);
    SortedUp(s, t, i, n, p);
    SpacesUp(s, t, i, p - 1);
    TotalUp(Spaces(s), Spaces(t), i, n, p);
  }

  lemma SpacesUp(s: seq<Attr>, t: seq<Attr>, i: nat, n: nat)
    requires MovedUp(s, t, i, n)
    ensures MovedUp(Spaces(s), Spaces(t), i, n)
  {
  }

  lemma SpacesWith(s: seq<Attr>, t: seq<Attr>, i: nat, x: Attr)
    requires With(s, t, i, x)
    ensures With(Spaces(s), Spaces(t), i, Space(x))
  {
  }

  /** A new attribute at the end of the inode body. */
  lemma AddedInFront(s: seq<Attr>, t: seq<Attr>, n: nat, x: Attr)
    requires n <= |s| && With(s, t, n, x) && Sorted(s, n, |s|)
    ensures Sorted(t, n + 1, |t|)
    ensures Used(t, 0, n + 1) == Used(s, 0, n) + Space(x) && Used(t, n + 1, |t|) == Used(s, n, |s|)
  {
    SortedBehind(s, t, n, x);
    SpacesWith(s, t, n, x);
    assert Spaces(t)[n] == Space(x);
    TotalWith(Spaces(s), Spaces(t), n, n, Space(x));
    TotalNext(Spaces(t), 0, n);
    TotalAround(Spaces(t), n, n, n + 1, |t|);
  }

  /** A new attribute at its place in the block. */
  lemma AddedBehind(s: seq<Attr>, t: seq<Attr>, n: nat, p: nat, x: Attr)
    requires With(s, t, p, x) && Sorted(s, n, |s|) && Belongs(s, n, p, |s|, x)
    ensures Sorted(t, n, |t|)
    ensures Used(t, 0, n) == Used(s, 0, n) && Used(t, n, |t|) == Used(s, n, |s|) + Space(x)
  {
    SortedWith(s, t, n, p, x);
    SpacesWith(s, t, p, x);
    TotalWith(Spaces(s), Spaces(t), n, p, Space(x));
  }

  lemma SortedBehind(s: seq<Attr>, t: seq<Attr>, n: nat, x: Attr)
    requires With(s, t, n, x) && Sorted(s, n, |s|)
    ensures Sorted(t, n + 1, |t|)
  {
    forall a, b | n < a < b < |t| ensures Precedes(t, a, b) {
      assert Precedes(s, a - 1, b - 1);
    }
  }
}
