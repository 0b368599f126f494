/**
 Model of write_xattrs_to_buffer and read_xattrs_from_buffer in libext2fs/ext_attr.c: entries with names
 grow from the beginning of a buffer, values from its end. A character is a byte.
 */
module XattrBuffer {
  import opened Bytes
  import opened XattrNames
  import opened XattrSet

  /** `sizeof(struct ext2_ext_attr_entry)`. */
  const HEADER := 16

  // ----- The layout -----

  /** Where entry k begins, and how many bytes the values before k take at the end. */
  function EntryPos(attrs: seq<Attr>, k: nat): (n: nat)
    requires k <= |attrs|
  {
    if k == 0 then 0 else EntryPos(attrs, k - 1) + EntryLen(|attrs[k - 1].short|)
  }

  function ValuesUsed(attrs: seq<Attr>, k: nat): (n: nat)
    requires k <= |attrs|
  {
    if k == 0 then 0 else ValuesUsed(attrs, k - 1) + ValueSize(|attrs[k - 1].value|)
  }

  /** Together they are what space_used counts. */
  lemma {:induction false} UsedIs(attrs: seq<Attr>, k: nat)
    requires k <= |attrs| && forall i :: 0 <= i < |attrs| ==> !attrs[i].external
    ensures Used(attrs, 0, k) == EntryPos(attrs, k) + ValuesUsed(attrs, k)
  {
    if k > 0 {
      UsedIs(attrs, k - 1);
    }
  }

  lemma PosNext(attrs: seq<Attr>, i: nat, j: nat)
    requires j == i + 1 <= |attrs|
    ensures EntryPos(attrs, j) == EntryPos(attrs, i) + EntryLen(|attrs[i].short|)
    ensures ValuesUsed(attrs, j) == ValuesUsed(attrs, i) + ValueSize(|attrs[i].value|)
  {
  }

  lemma {:induction false} PosMonotone(attrs: seq<Attr>, j: nat, k: nat)
    requires j <= k <= |attrs|
    ensures EntryPos(attrs, j) <= EntryPos(attrs, k) && ValuesUsed(attrs, j) <= ValuesUsed(attrs, k)
  {
    if j < k {
      PosMonotone(attrs, j, k - 1);
    }
  }

  /** An attribute that a buffer can hold: an inline value, and a name that does not look like the end of the list. */
  ghost predicate Storable(a: Attr) {
    && !a.external && a.name == PrefixIn(EA_NAMES, a.index) + a.short
    && |a.short| < 0x100 && a.index < 0x100 && (a.short != "" || a.index != 0)
  }

  /** `ext2fs_ext_attr_hash_entry` of a name and the words of a value; which function it is does not matter here. */
  type HashFunction = (string, string) -> nat

  function Hash(h: HashFunction, name: string, value: string): (x: nat) {
    h(name, value) % U32
  }

  lemma HashSmall(h: HashFunction, name: string, value: string)
    ensures Hash(h, name, value) % U32 == Hash(h, name, value)
  {
  }

  /** The entry at pos names the attribute and leads to its value at offs. */
  ghost predicate EntryAt(s: seq<char>, pos: nat, a: Attr, offs: nat, hash: nat) {
    && pos + HEADER + |a.short| <= |s|
    && s[pos] as int == |a.short| && s[pos + 1] as int == a.index
    && U16At(s, pos + 2) == offs && U32At(s, pos + 4) == 0
    && U32At(s, pos + 8) == |a.value| && U32At(s, pos + 12) == hash
    && s[pos + HEADER..pos + HEADER + |a.short|] == a.short
  }

  /** The value lies at vpos, and its space ends at vend. */
  ghost predicate ValueAt(s: seq<char>, vpos: nat, vend: nat, value: string) {
    && vpos + |value| <= vend <= |s|
    && s[vpos..vpos + |value|] == value
  }

  /** Attribute k is in the buffer. */
  ghost predicate StoredAt(s: seq<char>, attrs: seq<Attr>, k: nat, corr: nat, hashed: bool, h: HashFunction)
    requires k < |attrs|
  {
    ValuesUsed(attrs, k + 1) <= |s| &&
    Holds(s, EntryPos(attrs, k), EntryPos(attrs, k + 1), |s| - ValuesUsed(attrs, k + 1), |s| - ValuesUsed(attrs, k), attrs[k],
          corr, hashed, h)
  }

  /** The buffer is the list: all attributes, and a null entry behind them. */
  ghost predicate Stored(s: seq<char>, attrs: seq<Attr>, corr: nat, hashed: bool, h: HashFunction) {
    && (forall k :: 0 <= k < |attrs| ==> StoredAt(s, attrs, k, corr, hashed, h))
    && EntryPos(attrs, |attrs|) + 4 <= |s| && U32At(s, EntryPos(attrs, |attrs|)) == 0
  }

  lemma EntryKept(s: seq<char>, t: seq<char>, pos: nat, end: nat, a: Attr, offs: nat, hash: nat)
    requires EntryAt(s, pos, a, offs, hash) && pos + HEADER + |a.short| <= end && SameIn(s, t, pos, end)
    ensures EntryAt(t, pos, a, offs, hash)
  {
    SliceSame(s, t, pos, end, pos + HEADER, pos + HEADER + |a.short|);
  }

  lemma Rounding(n: nat)
    ensures n + HEADER <= EntryLen(n) && n <= ValueSize(n)
  {
    RoundIs(n + HEADER);
    RoundIs(n);
  }

  /** The entry from pos to next and the value from vpos to vend are those of an attribute. */
  ghost predicate Holds(s: seq<char>, pos: nat, next: nat, vpos: nat, vend: nat, a: Attr, corr: nat, hashed: bool, h: HashFunction) {
    && next == pos + EntryLen(|a.short|) && vpos + ValueSize(|a.value|) == vend && next + 4 <= vpos && vend <= |s|
    && EntryAt(s, pos, a, (vpos + corr) % U16, if hashed then Hash(h, a.short, s[vpos..vend]) else 0)
    && ValueAt(s, vpos, vend, a.value)
  }

  /** Only their bytes matter. */
  lemma HoldsKept(s: seq<char>, t: seq<char>, pos: nat, next: nat, vpos: nat, vend: nat, a: Attr, corr: nat, hashed: bool,
                  h: HashFunction)
    requires Holds(s, pos, next, vpos, vend, a, corr, hashed, h)
    requires SameIn(s, t, pos, next) && SameIn(s, t, vpos, vend)
    ensures Holds(t, pos, next, vpos, vend, a, corr, hashed, h)
  {
    Rounding(|a.short|);
    SliceSame(s, t, vpos, vend, vpos, vend);
    SliceSame(s, t, vpos, vend, vpos, vpos + |a.value|);
    EntryKept(s, t, pos, next, a, (vpos + corr) % U16, if hashed then Hash(h, a.short, s[vpos..vend]) else 0);
  }

  // ----- Writing -----

  /** The numbers of an entry and its name; the hash is set later. */
  method WriteEntry(buf: array<char>, pos: nat, a: Attr, offs: nat, hash: nat)
    requires Storable(a) && |a.value| < U32 && pos + HEADER + |a.short| <= buf.Length
    modifies buf
    ensures EntryAt(buf[..], pos, a, offs % U16, hash % U32)
    ensures Outside(old(buf[..]), buf[..], pos, pos + HEADER + |a.short|)
  {
    Put8(buf, pos, |a.short|);
    Put8(buf, pos + 1, a.index);
    Put32(buf, pos + 8, |a.value|);
    Put32(buf, pos + 4, 0);
    PutBytes(buf, pos + HEADER, a.short);
    Put16(buf, pos + 2, offs);
    Put32(buf, pos + 12, hash);
  }

  /** All bytes but those of the gaps lo..mid and mid'..hi stay. */
  ghost predicate SameBut(s: seq<char>, t: seq<char>, lo: nat, mid: nat, mid': nat, hi: nat) {
    |s| == |t| && forall x :: 0 <= x < |s| && !(lo <= x < mid) && !(mid' <= x < hi) ==> t[x] == s[x]
  }

  ghost predicate Zeroes(s: seq<char>, lo: nat, hi: nat) {
    hi <= |s| && forall x :: lo <= x < hi ==> s[x] == 0 as char
  }

  /** An attribute goes into the free space pos..vend: its entry to the beginning, its value to the end. */
  method PutAttr(buf: array<char>, pos: nat, vend: nat, a: Attr, corr: nat, hashed: bool, h: HashFunction)
    returns (next: nat, vpos: nat)
    requires Storable(a) && buf.Length + corr <= U16 && vend <= buf.Length && Zeroes(buf[..], pos, vend)
    requires pos + EntryLen(|a.short|) + ValueSize(|a.value|) + 4 <= vend
    modifies buf
    ensures Holds(buf[..], pos, next, vpos, vend, a, corr, hashed, h)
    ensures SameBut(old(buf[..]), buf[..], pos, next, vpos, vend) && Zeroes(buf[..], next, vpos)
  {
    ghost var s0 := buf[..];
    Rounding(|a.short|);
    Rounding(|a.value|);
    next, vpos := pos + EntryLen(|a.short|), vend - ValueSize(|a.value|);
    PutBytes(buf, vpos, a.value);
    ghost var s1 := buf[..];
    var hash := if hashed then Hash(h, a.short, buf[vpos..vend]) else 0;
    WriteEntry(buf, pos, a, vpos + corr, hash);
    ghost var s2 := buf[..];
    HashSmall(h, a.short, s1[vpos..vend]);
    Put32(buf, next, 0);
    PutKeeps(s0, s1, s2, buf[..], pos, next, vpos, vend, a);
    PutHolds(s1, s2, buf[..], pos, next, vpos, vend, a, corr, hashed, h);
  }

  /** The value s1, the entry s2 and the null entry t have been put one after another. */
  ghost predicate PutSteps(s1: seq<char>, s2: seq<char>, t: seq<char>, pos: nat, next: nat, vpos: nat, vend: nat, a: Attr) {
    && |s1| == |s2| == |t| && pos + HEADER + |a.short| <= next && next + 4 <= vpos && vpos + |a.value| <= vend <= |s1|
    && Outside(s1, s2, pos, pos + HEADER + |a.short|) && Outside(s2, t, next, next + 4) && U32At(t, next) == 0
  }

  lemma PutKeeps(s0: seq<char>, s1: seq<char>, s2: seq<char>, t: seq<char>, pos: nat, next: nat, vpos: nat, vend: nat, a: Attr)
    requires PutSteps(s1, s2, t, pos, next, vpos, vend, a) && Zeroes(s0, pos, vend)
    requires Outside(s0, s1, vpos, vpos + |a.value|)
    ensures SameBut(s0, t, pos, next, vpos, vend) && Zeroes(t, next, vpos)
  {
    NullIsZeroes(t, next);
  }

  lemma PutHolds(s1: seq<char>, s2: seq<char>, t: seq<char>, pos: nat, next: nat, vpos: nat, vend: nat, a: Attr,
                 corr: nat, hashed: bool, h: HashFunction)
    requires PutSteps(s1, s2, t, pos, next, vpos, vend, a) && s1[vpos..vpos + |a.value|] == a.value
    requires EntryAt(s2, pos, a, (vpos + corr) % U16, if hashed then Hash(h, a.short, s1[vpos..vend]) else 0)
    requires next == pos + EntryLen(|a.short|) && vpos + ValueSize(|a.value|) == vend
    ensures Holds(t, pos, next, vpos, vend, a, corr, hashed, h)
  {
    EntryKept(s2, t, pos, next, a, (vpos + corr) % U16, if hashed then Hash(h, a.short, s1[vpos..vend]) else 0);
    SliceSame(s1, t, vpos, vend, vpos, vend);
    SliceSame(s1, t, vpos, vend, vpos, vpos + |a.value|);
  }

  /** Four zero bytes, as a number. */
  lemma NullIsZeroes(s: seq<char>, pos: nat)
    requires pos + 4 <= |s|
    ensures U32At(s, pos) == 0 <==> Zeroes(s, pos, pos + 4)
  {
    assert s[pos] == 0 as char <==> s[pos] as int == 0;
    assert s[pos + 1] == 0 as char <==> s[pos + 1] as int == 0;
    assert s[pos + 2] == 0 as char <==> s[pos + 2] as int == 0;
    assert s[pos + 3] == 0 as char <==> s[pos + 3] as int == 0;
  }

  ghost predicate FirstStored(s: seq<char>, attrs: seq<Attr>, i: nat, corr: nat, hashed: bool, h: HashFunction)
    requires i <= |attrs|
  {
    forall k :: 0 <= k < i ==> StoredAt(s, attrs, k, corr, hashed, h)
  }

  /** What the loop of `write_xattrs_to_buffer` has done when it comes to attribute i. */
  ghost predicate Writing(s: seq<char>, attrs: seq<Attr>, i: nat, corr: nat, hashed: bool, h: HashFunction) {
    && i <= |attrs|
    && EntryPos(attrs, |attrs|) + ValuesUsed(attrs, |attrs|) + 4 <= |s|
    && FirstStored(s, attrs, i, corr, hashed, h)
    && ValuesUsed(attrs, i) <= |s| && Zeroes(s, EntryPos(attrs, i), |s| - ValuesUsed(attrs, i))
  }

  lemma WritingNext(s: seq<char>, t: seq<char>, attrs: seq<Attr>, i: nat, corr: nat, hashed: bool, h: HashFunction,
                    pos: nat, next: nat, vpos: nat, vend: nat)
    requires Writing(s, attrs, i, corr, hashed, h) && i < |attrs|
    requires pos == EntryPos(attrs, i) && vend == |s| - ValuesUsed(attrs, i)
    requires Holds(t, pos, next, vpos, vend, attrs[i], corr, hashed, h)
    requires SameBut(s, t, pos, next, vpos, vend) && Zeroes(t, next, vpos)
    ensures Writing(t, attrs, i + 1, corr, hashed, h)
    ensures next == EntryPos(attrs, i + 1) && vpos == |t| - ValuesUsed(attrs, i + 1)
  {
    StoredNext(t, attrs, i, corr, hashed, h, pos, next, vpos, vend);
    AllKept(s, t, attrs, i, corr, hashed, h, pos, next, vpos, vend);
    OneMoreStored(t, attrs, i, i + 1, corr, hashed, h);
  }

  lemma OneMoreStored(t: seq<char>, attrs: seq<Attr>, i: nat, j: nat, corr: nat, hashed: bool, h: HashFunction)
    requires j == i + 1 <= |attrs| && FirstStored(t, attrs, i, corr, hashed, h) && StoredAt(t, attrs, i, corr, hashed, h)
    ensures FirstStored(t, attrs, j, corr, hashed, h)
  {
  }

  lemma AllKept(s: seq<char>, t: seq<char>, attrs: seq<Attr>, i: nat, corr: nat, hashed: bool, h: HashFunction,
                pos: nat, next: nat, vpos: nat, vend: nat)
    requires i < |attrs| && FirstStored(s, attrs, i, corr, hashed, h)
    requires pos == EntryPos(attrs, i) && vend + ValuesUsed(attrs, i) == |s|
    requires SameBut(s, t, pos, next, vpos, vend) && pos <= next <= vpos <= vend
    ensures FirstStored(t, attrs, i, corr, hashed, h)
  {
    forall k | 0 <= k < i ensures StoredAt(t, attrs, k, corr, hashed, h) {
      KeptOne(s, t, attrs, i, k, corr, hashed, h, pos, next, vpos, vend);
    }
  }

  lemma StoredNext(t: seq<char>, attrs: seq<Attr>, i: nat, corr: nat, hashed: bool, h: HashFunction,
                   pos: nat, next: nat, vpos: nat, vend: nat)
    requires i < |attrs| && pos == EntryPos(attrs, i) && vend + ValuesUsed(attrs, i) == |t|
    requires Holds(t, pos, next, vpos, vend, attrs[i], corr, hashed, h)
    ensures StoredAt(t, attrs, i, corr, hashed, h)
    ensures next == EntryPos(attrs, i + 1) && vpos + ValuesUsed(attrs, i + 1) == |t|
  {
    var j := i + 1;
    PosNext(attrs, i, j);
  }

  /** What has been stored before is not touched. */
  lemma KeptOne(s: seq<char>, t: seq<char>, attrs: seq<Attr>, i: nat, k: nat, corr: nat, hashed: bool, h: HashFunction,
                pos: nat, next: nat, vpos: nat, vend: nat)
    requires k < i < |attrs| && StoredAt(s, attrs, k, corr, hashed, h)
    requires pos == EntryPos(attrs, i) && vend + ValuesUsed(attrs, i) == |s|
    requires SameBut(s, t, pos, next, vpos, vend) && pos <= next <= vpos <= vend
    ensures StoredAt(t, attrs, k, corr, hashed, h)
  {
    var k' := k + 1;
    PosMonotone(attrs, k', i);
    PosMonotone(attrs, k, k');
    HoldsAside(s, t, pos, next, vpos, vend, EntryPos(attrs, k), EntryPos(attrs, k + 1), |t| - ValuesUsed(attrs, k + 1),
               |t| - ValuesUsed(attrs, k), attrs[k], corr, hashed, h);
  }

  lemma HoldsAside(s: seq<char>, t: seq<char>, pos: nat, next: nat, vpos: nat, vend: nat, lo: nat, mid: nat, mid': nat, hi: nat,
                   a: Attr, corr: nat, hashed: bool, h: HashFunction)
    requires Holds(s, lo, mid, mid', hi, a, corr, hashed, h) && lo <= mid <= pos && vend <= mid' <= hi
    requires SameBut(s, t, pos, next, vpos, vend) && pos <= next <= vpos <= vend
    ensures Holds(t, lo, mid, mid', hi, a, corr, hashed, h)
  {
    SameAside(s, t, pos, next, vpos, vend, lo, mid);
    SameAside(s, t, pos, next, vpos, vend, mid', hi);
    HoldsKept(s, t, lo, mid, mid', hi, a, corr, hashed, h);
  }

  lemma SameAside(s: seq<char>, t: seq<char>, pos: nat, next: nat, vpos: nat, vend: nat, lo: nat, hi: nat)
    requires SameBut(s, t, pos, next, vpos, vend) && pos <= next <= vpos <= vend <= |s| && lo <= hi <= |s|
    requires hi <= pos || vend <= lo
    ensures SameIn(s, t, lo, hi)
  {
  }

  /** One turn of the loop. */
  method WriteNext(buf: array<char>, attrs: seq<Attr>, i: nat, e: nat, end: nat, corr: nat, hashed: bool, h: HashFunction)
    returns (e': nat, end': nat)
    requires i < |attrs| && Storable(attrs[i]) && buf.Length + corr <= U16
    requires Writing(buf[..], attrs, i, corr, hashed, h)
    requires e == EntryPos(attrs, i) && end == buf.Length - ValuesUsed(attrs, i)
    modifies buf
    ensures Writing(buf[..], attrs, i + 1, corr, hashed, h)
    ensures e' == EntryPos(attrs, i + 1) && end' == buf.Length - ValuesUsed(attrs, i + 1)
  {
    ghost var s := buf[..];
    RoomFor(attrs, i, buf.Length);
    e', end' := PutAttr(buf, e, end, attrs[i], corr, hashed, h);
    WritingNext(s, buf[..], attrs, i, corr, hashed, h, e, e', end', end);
  }

  /**
   `write_xattrs_to_buffer`, where space_used and a null entry fit: the whole list is stored. Offsets count from
   `corr` bytes before the buffer.
   */
  method Write(buf: array<char>, attrs: seq<Attr>, corr: nat, hashed: bool, h: HashFunction)
    requires forall i :: 0 <= i < |attrs| ==> Storable(attrs[i])
    requires Used(attrs, 0, |attrs|) + 4 <= buf.Length && buf.Length + corr <= U16
    modifies buf
    ensures Stored(buf[..], attrs, corr, hashed, h)
  {
    UsedIs(attrs, |attrs|);
    forall k | 0 <= k < buf.Length {
      buf[k] := 0 as char;
    }
    var e, end := 0, buf.Length;
    for i := 0 to |attrs|
      invariant Writing(buf[..], attrs, i, corr, hashed, h)
      invariant e == EntryPos(attrs, i) && end == buf.Length - ValuesUsed(attrs, i)
    {
      e, end := WriteNext(buf, attrs, i, e, end, corr, hashed, h);
    }
    NullIsZeroes(buf[..], e);
  }

  lemma RoomFor(attrs: seq<Attr>, i: nat, n: nat)
    requires i < |attrs| && EntryPos(attrs, |attrs|) + ValuesUsed(attrs, |attrs|) + 4 <= n
    ensures EntryPos(attrs, i) + EntryLen(|attrs[i].short|) + ValueSize(|attrs[i].value|) + 4 <= n - ValuesUsed(attrs, i)
  {
    var j := i + 1;
    PosNext(attrs, i, j);
    PosMonotone(attrs, j, |attrs|);
  }

  // ----- Reading -----

  datatype ReadError = Fine | BadNameLen | BadValueSize | BadValueOffset | BadBlockNum | BadHash

  /** `EXT2_EXT_IS_LAST_ENTRY`. */
  predicate IsLast(s: seq<char>, pos: nat)
    requires pos + 4 <= |s|
  {
    U32At(s, pos) == 0
  }

  /** The list of entries goes on at pos. */
  predicate More(s: seq<char>, pos: nat) {
    pos + HEADER <= |s| && !IsLast(s, pos)
  }

  /** From pos on, entry by entry, one comes to end, where the list does not go on. */
  ghost predicate Walks(s: seq<char>, pos: nat, end: nat)
    decreases |s| - pos
  {
    if !More(s, pos) then pos == end <= |s|
    else pos + EntryLen(s[pos] as int) <= |s| && pos < pos + EntryLen(s[pos] as int) && Walks(s, pos + EntryLen(s[pos] as int), end)
  }

  /** `find the end`. */
  method FindEnd(buf: array<char>) returns (err: ReadError, end: nat)
    ensures err == Fine || err == BadNameLen
    ensures err == Fine ==> Walks(buf[..], 0, end)
    ensures err != Fine ==> !exists e :: Walks(buf[..], 0, e)
  {
    end := 0;
    while More(buf[..], end)
      invariant end <= buf.Length
      invariant forall e :: Walks(buf[..], end, e) <==> Walks(buf[..], 0, e)
      decreases buf.Length - end
    {
      var remain := buf.Length - end - HEADER;
      RoundHeader(buf[end] as int);
      if Round(buf[end] as int) > remain {
        return BadNameLen, end;
      }
      end := end + EntryLen(buf[end] as int);
    }
    return Fine, end;
  }

  lemma RoundHeader(n: nat)
    ensures EntryLen(n) == HEADER + Round(n)
  {
    RoundIs(n);
    RoundIs(n + HEADER);
  }

  /** The numbers of an entry. */
  datatype Entry = Entry(offs: nat, inum: nat, size: nat, hash: nat)

  function EntryOf(s: seq<char>, pos: nat): (e: Entry)
    requires pos + HEADER <= |s|
  {
    Entry(U16At(s, pos + 2), U32At(s, pos + 4), U32At(s, pos + 8), U32At(s, pos + 12))
  }

  /** An inline value that lies behind the entries and inside the buffer of n bytes. */
  ghost predicate Fits(e: Entry, n: nat, end: nat, remain: int, corr: nat) {
    e.inum == 0 && e.size <= remain && e.offs + e.size <= n + corr && (e.size > 0 ==> end + 4 + corr <= e.offs)
  }

  /** The checks on an inline value; `remain` is what is left of the buffer for values. */
  method CheckValue(e: Entry, n: nat, end: nat, remain: int, corr: nat) returns (err: ReadError)
    ensures err == Fine <==> Fits(e, n, end, remain, corr)
    ensures err == BadBlockNum <==> e.inum != 0
    ensures err == BadValueSize <==> e.inum == 0 && e.size > remain
    ensures err != BadHash && err != BadNameLen
  {
    if e.inum != 0 {
      return BadBlockNum;
    }
    if e.size > remain {
      return BadValueSize;
    }
    if e.offs + e.size > n + corr {
      return BadValueOffset;
    }
    if e.size > 0 && e.offs - corr < end + 4 {
      return BadValueOffset;
    }
    return Fine;
  }

  /** The words a hash is made from, as far as the buffer goes. */
  function Words(s: seq<char>, start: nat, size: nat): (data: string) {
    if start + ValueSize(size) <= |s| then s[start..start + ValueSize(size)] else if start <= |s| then s[start..] else ""
  }

  /** The hash of an entry is none, or that of the name and the value. */
  predicate HashFine(s: seq<char>, e: Entry, short: string, corr: nat, h: HashFunction) {
    e.hash == 0 || e.hash == Hash(h, short, if e.size > 0 && corr <= e.offs then Words(s, e.offs - corr, e.size) else "")
  }

  /** The value of an entry is read if and only if it passes all checks. */
  method ReadValue(buf: array<char>, e: Entry, end: nat, remain: int, short: string, corr: nat, h: HashFunction)
    returns (err: ReadError, value: string)
    ensures err == Fine <==> Fits(e, buf.Length, end, remain, corr) && HashFine(buf[..], e, short, corr, h)
    ensures err == Fine && e.size > 0 ==> value == buf[e.offs - corr..e.offs - corr + e.size]
    ensures err == Fine && e.size == 0 ==> value == ""
  {
    value := "";
    err := CheckValue(e, buf.Length, end, remain, corr);
    if err != Fine {
      return;
    }
    if e.size > 0 {
      value := buf[e.offs - corr..e.offs - corr + e.size];
    }
    if !HashFine(buf[..], e, short, corr, h) {
      return BadHash, value;
    }
  }

  /** What a reader should find at pos: the attribute a, whose value at vpos does not run into the entries. */
  ghost predicate Expected(s: seq<char>, pos: nat, end: nat, remain: int, a: Attr, vpos: nat, vend: nat,
                           corr: nat, hashed: bool, h: HashFunction) {
    && |s| + corr <= U16 && Storable(a) && |a.value| <= remain && end + 4 <= vpos
    && Holds(s, pos, pos + EntryLen(|a.short|), vpos, vend, a, corr, hashed, h)
  }

  /** An attribute as expected passes. */
  lemma ExpectedFits(s: seq<char>, pos: nat, end: nat, remain: int, a: Attr, vpos: nat, vend: nat,
                     corr: nat, hashed: bool, h: HashFunction)
    requires Expected(s, pos, end, remain, a, vpos, vend, corr, hashed, h)
    ensures pos + HEADER <= |s| && Fits(EntryOf(s, pos), |s|, end, remain, corr)
    ensures EntryOf(s, pos).size == |a.value|
    ensures |a.value| > 0 ==> EntryOf(s, pos).offs == vpos + corr
  {
    Rounding(|a.value|);
    OffsetIs(vpos, vend, |a.value|, |s|, corr);
  }

  /** Only the offset of an empty value at the end of a buffer can be cut off. */
  lemma OffsetIs(vpos: nat, vend: nat, size: nat, n: nat, corr: nat)
    requires vpos + size <= vend <= n && n + corr <= U16
    ensures (vpos + corr) % U16 + size <= n + corr
    ensures size > 0 ==> (vpos + corr) % U16 == vpos + corr
  {
    if vpos + corr < U16 {
      SmallMod(vpos + corr, U16);
    }
  }

  lemma SmallMod(x: nat, m: nat)
    requires x < m
    ensures x % m == x
  {
  }

  lemma ExpectedHash(s: seq<char>, pos: nat, end: nat, remain: int, a: Attr, vpos: nat, vend: nat,
                     corr: nat, hashed: bool, h: HashFunction)
    requires Expected(s, pos, end, remain, a, vpos, vend, corr, hashed, h) && pos + HEADER <= |s|
    requires EntryOf(s, pos).size == |a.value|
    requires |a.value| > 0 ==> EntryOf(s, pos).offs == vpos + corr
    ensures HashFine(s, EntryOf(s, pos), a.short, corr, h)
  {
    if |a.value| > 0 {
      assert Words(s, vpos, |a.value|) == s[vpos..vend];
    } else {
      assert s[vpos..vend] == "";
    }
  }

  /** The short name at pos, and the value an entry leads to. */
  function NameAt(s: seq<char>, pos: nat): (short: string)
    requires pos + HEADER <= |s| && pos + HEADER + s[pos] as int <= |s|
  {
    s[pos + HEADER..pos + HEADER + s[pos] as int]
  }

  function ValueOf(s: seq<char>, e: Entry, corr: nat): (value: string)
    requires e.size > 0 ==> corr <= e.offs && e.offs - corr + e.size <= |s|
  {
    if e.size > 0 then s[e.offs - corr..e.offs - corr + e.size] else ""
  }

  /** The entry at pos passes all checks; what is left for values after its name is `remain`. */
  ghost predicate Passes(s: seq<char>, pos: nat, end: nat, remain: int, corr: nat, h: HashFunction) {
    && pos + HEADER <= |s| && pos + HEADER + s[pos] as int <= |s|
    && Fits(EntryOf(s, pos), |s|, end, remain, corr) && HashFine(s, EntryOf(s, pos), NameAt(s, pos), corr, h)
  }

  /** The attribute that is made of the entry at pos. */
  ghost predicate IsRead(s: seq<char>, pos: nat, corr: nat, x: Attr) {
    && pos + HEADER <= |s| && pos + HEADER + s[pos] as int <= |s|
    && x.short == NameAt(s, pos) && x.index == s[pos + 1] as int && !x.external && x.name == PrefixIn(EA_NAMES, x.index) + x.short
    && var e := EntryOf(s, pos);
       (e.size > 0 ==> corr <= e.offs && e.offs - corr + e.size <= |s|) && x.value == ValueOf(s, e, corr)
  }

  /** One entry becomes an attribute, if and only if it passes all checks. */
  method ReadEntry(buf: array<char>, pos: nat, end: nat, remain: int, corr: nat, h: HashFunction)
    returns (err: ReadError, x: Attr, remain': int)
    requires More(buf[..], pos) && pos + EntryLen(buf[pos] as int) <= buf.Length
    ensures remain' <= remain - EntryLen(buf[pos] as int)
    ensures err == Fine <==> Passes(buf[..], pos, end, remain - EntryLen(buf[pos] as int), corr, h)
    ensures err == Fine ==> IsRead(buf[..], pos, corr, x)
    ensures err == Fine ==> remain' == remain - EntryLen(buf[pos] as int) - |x.value|
  {
    var nameLen := buf[pos] as int;
    RoundHeader(nameLen);
    Rounding(nameLen);
    remain' := remain - HEADER;
    remain' := remain' - Round(nameLen);
    var prefix := FindPrefix(buf[pos + 1] as int);
    var short, e, value := NameAt(buf[..], pos), EntryOf(buf[..], pos), "";
    err, value := ReadValue(buf, e, end, remain', short, corr, h);
    x := Attr(prefix + short, short, buf[pos + 1] as int, value, false);
    remain' := remain' - |value|;
  }

  /** An attribute as expected passes, and is what is read. */
  lemma ExpectedPasses(s: seq<char>, pos: nat, end: nat, remain: int, a: Attr, vpos: nat, vend: nat,
                       corr: nat, hashed: bool, h: HashFunction)
    requires Expected(s, pos, end, remain, a, vpos, vend, corr, hashed, h)
    ensures Passes(s, pos, end, remain, corr, h)
    ensures a.short == NameAt(s, pos) && a.index == s[pos + 1] as int && a.value == ValueOf(s, EntryOf(s, pos), corr)
  {
    ExpectedFits(s, pos, end, remain, a, vpos, vend, corr, hashed, h);
    ExpectedHash(s, pos, end, remain, a, vpos, vend, corr, hashed, h);
  }

  /** The bytes of the values before k, not rounded. */
  function ValueBytes(attrs: seq<Attr>, k: nat): (n: nat)
    requires k <= |attrs|
  {
    if k == 0 then 0 else ValueBytes(attrs, k - 1) + |attrs[k - 1].value|
  }

  lemma {:induction false} BytesFit(attrs: seq<Attr>, k: nat)
    requires k <= |attrs|
    ensures ValueBytes(attrs, k) <= ValuesUsed(attrs, k)
  {
    if k > 0 {
      BytesFit(attrs, k - 1);
      Rounding(|attrs[k - 1].value|);
    }
  }

  /** The buffer holds a list that can be read back. */
  ghost predicate Readable(s: seq<char>, attrs: seq<Attr>, corr: nat, hashed: bool, h: HashFunction) {
    && Stored(s, attrs, corr, hashed, h) && |s| + corr <= U16
    && (forall i :: 0 <= i < |attrs| ==> Storable(attrs[i]))
    && EntryPos(attrs, |attrs|) + ValuesUsed(attrs, |attrs|) + 4 <= |s|
  }

  /** Attribute k is where a reader that has read those before it looks for it. */
  lemma ReadableAt(s: seq<char>, attrs: seq<Attr>, k: nat, corr: nat, hashed: bool, h: HashFunction)
    requires Readable(s, attrs, corr, hashed, h) && k < |attrs|
    ensures More(s, EntryPos(attrs, k)) && s[EntryPos(attrs, k)] as int == |attrs[k].short|
    ensures EntryPos(attrs, k + 1) == EntryPos(attrs, k) + EntryLen(|attrs[k].short|) <= |s|
    ensures |attrs[k].value| <= |s| - EntryPos(attrs, k + 1) - ValueBytes(attrs, k)
    ensures ValuesUsed(attrs, k + 1) <= |s|
    ensures Expected(s, EntryPos(attrs, k), EntryPos(attrs, |attrs|), |s| - EntryPos(attrs, k + 1) - ValueBytes(attrs, k),
                     attrs[k], |s| - ValuesUsed(attrs, k + 1), |s| - ValuesUsed(attrs, k), corr, hashed, h)
  {
    var j := k + 1;
    assert StoredAt(s, attrs, k, corr, hashed, h);
    PosNext(attrs, k, j);
    PosMonotone(attrs, j, |attrs|);
    BytesFit(attrs, j);
    StartsEntry(s, EntryPos(attrs, k), EntryPos(attrs, j), |s| - ValuesUsed(attrs, j), |s| - ValuesUsed(attrs, k), attrs[k],
                corr, hashed, h);
  }

  /** An entry does not look like the end. */
  lemma StartsEntry(s: seq<char>, pos: nat, next: nat, vpos: nat, vend: nat, a: Attr, corr: nat, hashed: bool, h: HashFunction)
    requires Holds(s, pos, next, vpos, vend, a, corr, hashed, h) && Storable(a)
    ensures More(s, pos) && s[pos] as int == |a.short|
  {
  }

  /** The walk along a stored list ends behind its last entry. */
  lemma {:induction false} StoredWalks(s: seq<char>, attrs: seq<Attr>, k: nat, corr: nat, hashed: bool, h: HashFunction)
    requires Readable(s, attrs, corr, hashed, h) && k <= |attrs|
    ensures Walks(s, EntryPos(attrs, k), EntryPos(attrs, |attrs|))
    decreases |attrs| - k
  {
    if k < |attrs| {
      ReadableAt(s, attrs, k, corr, hashed, h);
      Rounding(|attrs[k].short|);
      StoredWalks(s, attrs, k + 1, corr, hashed, h);
    }
  }

  lemma {:induction false} WalkUnique(s: seq<char>, pos: nat, d: nat, e: nat)
    requires Walks(s, pos, d) && Walks(s, pos, e)
    ensures d == e
    decreases |s| - pos
  {
    if More(s, pos) {
      WalkUnique(s, pos + EntryLen(s[pos] as int), d, e);
    }
  }

  /** What the second loop has read when it stands at pos, if the buffer holds the list attrs. */
  ghost predicate ReadSoFar(size: nat, attrs: seq<Attr>, result: seq<Attr>, pos: nat, remain: int, end: nat) {
    var n := |result|;
    && n <= |attrs| && result == attrs[..n] && pos == EntryPos(attrs, n) && end == EntryPos(attrs, |attrs|)
    && remain == size - EntryPos(attrs, n) - ValueBytes(attrs, n)
  }

  /** Behind a stored list there are no more entries. */
  lemma EndNotMore(s: seq<char>, attrs: seq<Attr>, n: nat, corr: nat, hashed: bool, h: HashFunction)
    requires Readable(s, attrs, corr, hashed, h) && n <= |attrs|
    ensures More(s, EntryPos(attrs, n)) <==> n < |attrs|
  {
    if n < |attrs| {
      ReadableAt(s, attrs, n, corr, hashed, h);
    }
  }

  lemma MoreLeft(s: seq<char>, pos: nat, end: nat, remain: int, remain': int, a: Attr, vpos: nat, vend: nat,
                 corr: nat, hashed: bool, h: HashFunction)
    requires Expected(s, pos, end, remain, a, vpos, vend, corr, hashed, h) && remain <= remain'
    ensures Expected(s, pos, end, remain', a, vpos, vend, corr, hashed, h)
  {
  }

  /** Which attribute a reader of a stored list should find next. */
  lemma NextExpected(s: seq<char>, attrs: seq<Attr>, result: seq<Attr>, pos: nat, remain: int, end: nat,
                     corr: nat, hashed: bool, h: HashFunction)
    returns (a: Attr, vpos: nat, vend: nat)
    requires More(s, pos) && Readable(s, attrs, corr, hashed, h) && ReadSoFar(|s|, attrs, result, pos, remain, end)
    ensures |result| < |attrs| && a == attrs[|result|] && s[pos] as int == |a.short|
    ensures Expected(s, pos, end, remain - EntryLen(s[pos] as int), a, vpos, vend, corr, hashed, h)
  {
    var n := |result|;
    EndNotMore(s, attrs, n, corr, hashed, h);
    ReadableAt(s, attrs, n, corr, hashed, h);
    a, vpos, vend := attrs[n], |s| - ValuesUsed(attrs, n + 1), |s| - ValuesUsed(attrs, n);
    MoreLeft(s, pos, end, |s| - EntryPos(attrs, n + 1) - ValueBytes(attrs, n), remain - EntryLen(s[pos] as int), a, vpos, vend,
             corr, hashed, h);
  }

  // ----- Any buffer -----

  /** The counter of what remains of n bytes, when the attributes xs have been read. */
  function Remains(n: nat, xs: seq<Attr>, k: nat): (remain: int)
    requires k <= |xs|
  {
    n - EntryPos(xs, k) - ValueBytes(xs, k)
  }

  /** Behind the first k of xs there is an entry to read. */
  ghost predicate Next(s: seq<char>, xs: seq<Attr>, k: nat)
    requires k <= |xs|
  {
    HEADER <= Remains(|s|, xs, k) && More(s, EntryPos(xs, k))
  }

  /** It passes all checks. */
  ghost predicate NextPasses(s: seq<char>, xs: seq<Attr>, k: nat, end: nat, corr: nat, h: HashFunction)
    requires k <= |xs|
  {
    var pos := EntryPos(xs, k);
    pos < |s| && Passes(s, pos, end, Remains(|s|, xs, k) - EntryLen(s[pos] as int), corr, h)
  }

  /** It does, and number k is what is made of it. */
  ghost predicate EntryRead(s: seq<char>, xs: seq<Attr>, k: nat, end: nat, corr: nat, h: HashFunction)
    requires k < |xs|
  {
    Next(s, xs, k) && NextPasses(s, xs, k, end, corr, h) && IsRead(s, EntryPos(xs, k), corr, xs[k])
  }

  ghost predicate AllEntriesRead(s: seq<char>, xs: seq<Attr>, end: nat, corr: nat, h: HashFunction) {
    forall k :: 0 <= k < |xs| ==> EntryRead(s, xs, k, end, corr, h)
  }

  /** Where the second loop stands. */
  ghost predicate Stands(s: seq<char>, xs: seq<Attr>, pos: nat, remain: int, end: nat, corr: nat, h: HashFunction) {
    AllEntriesRead(s, xs, end, corr, h) && pos == EntryPos(xs, |xs|) && remain == Remains(|s|, xs, |xs|)
  }

  lemma WalksOn(s: seq<char>, pos: nat, end: nat)
    requires More(s, pos) && Walks(s, pos, end)
    ensures var pos' := pos + EntryLen(s[pos] as int); pos < pos' <= |s| && Walks(s, pos', end)
  {
  }

  lemma {:induction false} PosPrefix(xs: seq<Attr>, x: Attr, k: nat)
    requires k <= |xs|
    ensures EntryPos(xs + [x], k) == EntryPos(xs, k) && ValueBytes(xs + [x], k) == ValueBytes(xs, k)
  {
    if k > 0 {
      PosPrefix(xs, x, k - 1);
      assert (xs + [x])[k - 1] == xs[k - 1];
    }
  }

  lemma StandsNext(s: seq<char>, xs: seq<Attr>, pos: nat, remain: int, end: nat, corr: nat, h: HashFunction, x: Attr)
    requires Stands(s, xs, pos, remain, end, corr, h) && HEADER <= remain && More(s, pos) && IsRead(s, pos, corr, x)
    requires Passes(s, pos, end, remain - EntryLen(s[pos] as int), corr, h)
    ensures Stands(s, xs + [x], pos + EntryLen(s[pos] as int), remain - EntryLen(s[pos] as int) - |x.value|, end, corr, h)
  {
    var ys := xs + [x];
    forall k | 0 <= k < |ys| ensures EntryRead(s, ys, k, end, corr, h) {
      if k < |xs| {
        StillRead(s, xs, x, k, end, corr, h);
      } else {
        PosPrefix(xs, x, k);
      }
    }
    PosPrefix(xs, x, |xs|);
  }

  lemma StillRead(s: seq<char>, xs: seq<Attr>, x: Attr, k: nat, end: nat, corr: nat, h: HashFunction)
    requires k < |xs| && EntryRead(s, xs, k, end, corr, h)
    ensures EntryRead(s, xs + [x], k, end, corr, h)
  {
    PosPrefix(xs, x, k);
  }

  /**
   What is read of a buffer, and where: all of its list; or as far as the list goes before an entry that does not
   pass; or nothing, where the list has no end.
   */
  ghost predicate IsAnswer(s: seq<char>, err: ReadError, xs: seq<Attr>, end: nat, corr: nat, h: HashFunction) {
    if err == Fine then Walks(s, 0, end) && AllEntriesRead(s, xs, end, corr, h) && !Next(s, xs, |xs|)
    else if exists e :: Walks(s, 0, e) then
      && Walks(s, 0, end) && AllEntriesRead(s, xs, end, corr, h)
      && Next(s, xs, |xs|) && !NextPasses(s, xs, |xs|, end, corr, h)
    else xs == []
  }

  /** One turn of the second loop. */
  method ReadNext(buf: array<char>, pos: nat, end: nat, remain: int, corr: nat, h: HashFunction, result: seq<Attr>,
                  ghost attrs: seq<Attr>, ghost hashed: bool)
    returns (err: ReadError, pos': nat, remain': int, result': seq<Attr>)
    requires More(buf[..], pos) && Walks(buf[..], pos, end) && HEADER <= remain <= buf.Length - pos
    requires Stands(buf[..], result, pos, remain, end, corr, h)
    requires Readable(buf[..], attrs, corr, hashed, h) ==> ReadSoFar(buf.Length, attrs, result, pos, remain, end)
    ensures err == Fine ==> pos < pos' <= buf.Length && Walks(buf[..], pos', end) && remain' <= buf.Length - pos'
    ensures if err == Fine then Stands(buf[..], result', pos', remain', end, corr, h)
            else result' == result && !NextPasses(buf[..], result, |result|, end, corr, h)
    ensures Readable(buf[..], attrs, corr, hashed, h) ==>
              err == Fine && ReadSoFar(buf.Length, attrs, result', pos', remain', end)
  {
    ghost var good := Readable(buf[..], attrs, corr, hashed, h);
    if good {
      GoodNext(buf[..], attrs, result, pos, remain, end, corr, hashed, h);
    }
    var x;
    err, x, remain' := ReadEntry(buf, pos, end, remain, corr, h);
    pos' := pos + EntryLen(buf[pos] as int);
    if err != Fine {
      return err, pos', remain', result;
    }
    StandsNext(buf[..], result, pos, remain, end, corr, h, x);
    WalksOn(buf[..], pos, end);
    result' := result + [x];
    if good {
      ReadOneMore(buf.Length, attrs, result, result', pos, pos', remain, remain', end, x);
    }
  }

  /** In a stored list the next entry passes, and the attribute that is made of it is the next one of the list. */
  lemma GoodNext(s: seq<char>, attrs: seq<Attr>, result: seq<Attr>, pos: nat, remain: int, end: nat,
                 corr: nat, hashed: bool, h: HashFunction)
    requires More(s, pos) && Readable(s, attrs, corr, hashed, h) && ReadSoFar(|s|, attrs, result, pos, remain, end)
    ensures |result| < |attrs| && Passes(s, pos, end, remain - EntryLen(s[pos] as int), corr, h)
    ensures forall x :: IsRead(s, pos, corr, x) ==> x == attrs[|result|]
  {
    var a, vpos, vend := NextExpected(s, attrs, result, pos, remain, end, corr, hashed, h);
    ExpectedPasses(s, pos, end, remain - EntryLen(s[pos] as int), a, vpos, vend, corr, hashed, h);
    forall x | IsRead(s, pos, corr, x) ensures x == a {
      assert Storable(a);
    }
  }

  lemma ReadOneMore(size: nat, attrs: seq<Attr>, result: seq<Attr>, result': seq<Attr>, pos: nat, pos': nat,
                    remain: int, remain': int, end: nat, x: Attr)
    requires ReadSoFar(size, attrs, result, pos, remain, end) && |result| < |attrs| && x == attrs[|result|]
    requires result' == result + [x] && pos' == pos + EntryLen(|x.short|)
    requires remain' == remain - EntryLen(|x.short|) - |x.value|
    ensures ReadSoFar(size, attrs, result', pos', remain', end)
  {
    assert attrs[..|result| + 1] == attrs[..|result|] + [x];
  }

  /**
   `read_xattrs_from_buffer`. From any buffer it reads inside the buffer only, and what its entries say up to the first
   one that does not pass; from one that holds a list it reads that list, in order.
   */
  method Read(buf: array<char>, corr: nat, h: HashFunction, ghost attrs: seq<Attr>, ghost hashed: bool)
    returns (err: ReadError, result: seq<Attr>, ghost end: nat)
    ensures IsAnswer(buf[..], err, result, end, corr, h)
    ensures Readable(buf[..], attrs, corr, hashed, h) ==> err == Fine && result == attrs
  {
    var e;
    result := [];
    err, e := FindEnd(buf);
    end := e;
    if Readable(buf[..], attrs, corr, hashed, h) {
      StoredWalks(buf[..], attrs, 0, corr, hashed, h);
      if err == Fine {
        WalkUnique(buf[..], 0, e, EntryPos(attrs, |attrs|));
      }
    }
    if err != Fine {
      return;
    }
    var pos, remain := 0, buf.Length;
    while remain >= HEADER && More(buf[..], pos)
      invariant err == Fine
      invariant Walks(buf[..], pos, e) && remain <= buf.Length - pos && pos <= buf.Length
      invariant Stands(buf[..], result, pos, remain, e, corr, h)
      invariant Readable(buf[..], attrs, corr, hashed, h) ==> ReadSoFar(buf.Length, attrs, result, pos, remain, e)
      decreases buf.Length - pos
    {
      err, pos, remain, result := ReadNext(buf, pos, e, remain, corr, h, result, attrs, hashed);
      if err != Fine {
        return;
      }
    }
    if Readable(buf[..], attrs, corr, hashed, h) {
      AllRead(buf[..], attrs, result, pos, remain, e, corr, hashed, h);
    }
  }

  /** The loop does not stop early. */
  lemma AllRead(s: seq<char>, attrs: seq<Attr>, result: seq<Attr>, pos: nat, remain: int, end: nat,
                corr: nat, hashed: bool, h: HashFunction)
    requires Readable(s, attrs, corr, hashed, h) && ReadSoFar(|s|, attrs, result, pos, remain, end)
    requires remain < HEADER || !More(s, pos)
    ensures result == attrs
  {
    var n := |result|;
    if n < |attrs| {
      ReadableAt(s, attrs, n, corr, hashed, h);
      Rounding(|attrs[n].short|);
    }
  }

  /** Parsing undoes serializing. */
  method WriteRead(buf: array<char>, attrs: seq<Attr>, corr: nat, hashed: bool, h: HashFunction)
    returns (err: ReadError, result: seq<Attr>)
    requires forall i :: 0 <= i < |attrs| ==> Storable(attrs[i])
    requires Used(attrs, 0, |attrs|) + 4 <= buf.Length && buf.Length + corr <= U16
    modifies buf
    ensures err == Fine && result == attrs
  {
    Write(buf, attrs, corr, hashed, h);
    UsedIs(attrs, |attrs|);
    ghost var end;
    err, result, end := Read(buf, corr, h, attrs, hashed);
  }
}
