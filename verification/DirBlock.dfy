/**
 Model of directory blocks in libext2fs/dir_iterate.c and of the insertion of a name in libext2fs/link.c:
 a block of less than 65536 bytes is a row of records, each as long as its record length says.
 */
module DirBlock {
  import opened Bytes

  /** EXT2_DIR_ENTRY_HEADER_LEN, and `sizeof(struct ext2_dir_entry_tail)`. */
  const HEAD := 8
  const TAIL := 12

  datatype Rec = Rec(len: nat, inode: nat, name: string, kind: nat)

  datatype Row = End | Then(first: Rec, rest: Row)

  datatype Dirent = Dirent(inode: nat, name: string, kind: nat)

  // ----- Bytes and rows -----

  function Inode(s: seq<char>, pos: nat): (n: nat)
    requires pos + HEAD <= |s|
  {
    U32At(s, pos)
  }

  /** `ext2fs_get_rec_len`, in a small block. */
  function RecLen(s: seq<char>, pos: nat): (n: nat)
    requires pos + HEAD <= |s|
  {
    U16At(s, pos + 4)
  }

  function NameLen(s: seq<char>, pos: nat): (n: nat)
    requires pos + HEAD <= |s|
  {
    s[pos + 6] as int
  }

  function Kind(s: seq<char>, pos: nat): (n: nat)
    requires pos + HEAD <= |s|
  {
    s[pos + 7] as int
  }

  /** EXT2_DIR_REC_LEN. */
  function MinLen(nameLen: nat): (n: nat) {
    Round(nameLen + HEAD)
  }

  ghost predicate Proper(r: Rec) {
    Fours(r.len) && HEAD + |r.name| <= r.len
  }

  ghost predicate RecAt(s: seq<char>, pos: nat, r: Rec) {
    && Proper(r) && pos + r.len <= |s|
    && Inode(s, pos) == r.inode && RecLen(s, pos) == r.len && NameLen(s, pos) == |r.name| && Kind(s, pos) == r.kind
    && s[pos + HEAD..pos + HEAD + |r.name|] == r.name
  }

  /** From pos to end the bytes are the row. */
  ghost predicate Holds(s: seq<char>, pos: nat, end: nat, row: Row)
    decreases row
  {
    match row
    case End => pos == end <= |s|
    case Then(r, rest) => RecAt(s, pos, r) && Holds(s, pos + r.len, end, rest)
  }

  function Total(row: Row): (n: nat) {
    match row
    case End => 0
    case Then(r, rest) => r.len + Total(rest)
  }

  ghost predicate AllProper(row: Row) {
    row.Then? ==> Proper(row.first) && AllProper(row.rest)
  }

  /** Records with an inode are live. */
  function LiveOne(r: Rec): (x: seq<Dirent>) {
    if r.inode == 0 then [] else [Dirent(r.inode, r.name, r.kind)]
  }

  function Live(row: Row): (xs: seq<Dirent>) {
    match row
    case End => []
    case Then(r, rest) => LiveOne(r) + Live(rest)
  }

  lemma {:induction false} HoldsTotal(s: seq<char>, pos: nat, end: nat, row: Row)
    requires Holds(s, pos, end, row)
    ensures pos + Total(row) == end <= |s| && AllProper(row)
    decreases row
  {
    if row.Then? {
      HoldsTotal(s, pos + row.first.len, end, row.rest);
    }
  }

  /** The bytes determine the row. */
  lemma {:induction false} RowUnique(s: seq<char>, pos: nat, end: nat, row: Row, row': Row)
    requires Holds(s, pos, end, row) && Holds(s, pos, end, row')
    ensures row == row'
    decreases row
  {
    HoldsTotal(s, pos, end, row);
    HoldsTotal(s, pos, end, row');
    if row.Then? && row'.Then? {
      RowUnique(s, pos + row.first.len, end, row.rest, row'.rest);
    }
  }

  /** Only the bytes between pos and end matter. */
  lemma {:induction false} HoldsKept(s: seq<char>, t: seq<char>, pos: nat, end: nat, row: Row)
    requires Holds(s, pos, end, row) && SameIn(s, t, pos, end)
    ensures Holds(t, pos, end, row)
    decreases row
  {
    HoldsTotal(s, pos, end, row);
    if row.Then? {
      RecKept(s, t, pos, row.first);
      HoldsKept(s, t, pos + row.first.len, end, row.rest);
    }
  }

  lemma RecKept(s: seq<char>, t: seq<char>, pos: nat, r: Rec)
    requires RecAt(s, pos, r) && SameIn(s, t, pos, pos + HEAD + |r.name|)
    ensures RecAt(t, pos, r)
  {
    SliceSame(s, t, pos, pos + HEAD + |r.name|, pos + HEAD, pos + HEAD + |r.name|);
  }

  function Append(a: Row, b: Row): (c: Row) {
    match a
    case End => b
    case Then(r, rest) => Then(r, Append(rest, b))
  }

  lemma {:induction false} HoldsAppend(s: seq<char>, lo: nat, mid: nat, hi: nat, a: Row, b: Row)
    requires Holds(s, lo, mid, a) && Holds(s, mid, hi, b)
    ensures Holds(s, lo, hi, Append(a, b))
    decreases a
  {
    if a.Then? {
      HoldsAppend(s, lo + a.first.len, mid, hi, a.rest, b);
    }
  }

  lemma {:induction false} LiveAppend(a: Row, b: Row)
    ensures Live(Append(a, b)) == Live(a) + Live(b)
  {
    if a.Then? {
      LiveAppend(a.rest, b);
      Associate(LiveOne(a.first), Live(a.rest), Live(b));
    } else {
      assert [] + Live(b) == Live(b);
    }
  }

  lemma Associate<T>(a: seq<T>, b: seq<T>, c: seq<T>)
    ensures a + (b + c) == a + b + c
  {
  }

  /** The smallest record for a name holds it, and is no longer than any other that does. */
  lemma MinFits(nameLen: nat)
    ensures nameLen + 8 <= MinLen(nameLen) && Fours(MinLen(nameLen))
  {
    RoundIs(nameLen + HEAD);
    FoursIs(MinLen(nameLen));
  }

  lemma MinLeast(nameLen: nat, len: nat)
    requires nameLen + 8 <= len && Fours(len)
    ensures MinLen(nameLen) <= len
  {
    RoundIs(nameLen + HEAD);
    FoursIs(len);
  }

  // ----- What link_proc makes of a row -----

  /** A name to link: inode, name, type byte, and whether the type byte is to be set. */
  datatype Link = Link(inode: nat, name: string, flags: nat, filetype: bool)

  function Need(x: Link): (n: nat) {
    MinLen(|x.name|)
  }

  /** What a record cannot give away. */
  function Taken(r: Rec): (n: nat) {
    if r.inode == 0 then 0 else MinLen(|r.name|)
  }

  /** A record absorbs a free one behind it, unless no more than eight bytes follow. */
  function Absorbed(row: Row): (row': Row)
    requires row.Then?
  {
    var Then(r, rest) := row;
    if rest.Then? && rest.first.inode == 0 && Total(rest) > HEAD then Then(r.(len := r.len + rest.first.len), rest.rest)
    else row
  }

  function Free(len: nat): (r: Rec) {
    Rec(len, 0, "", 0)
  }

  function Filled(r: Rec, x: Link): (r': Rec) {
    Rec(r.len, x.inode, x.name, if x.filetype then x.flags % 8 else r.kind)
  }

  datatype Outcome = Outcome(row: Row, done: bool)

  /** One call of `link_proc`, at the first record. */
  function LinkOne(row: Row, x: Link): (o: Outcome)
    requires row.Then?
  {
    var Then(r, rest) := Absorbed(row);
    if r.len < Taken(r) + Need(x) then Outcome(Then(r, rest), false)
    else if r.inode != 0 then Outcome(Then(r.(len := Taken(r)), Then(Free(r.len - Taken(r)), rest)), false)
    else Outcome(Then(Filled(r, x), rest), true)
  }

  /** What is behind the first record then: it has less bytes, or less records. */
  lemma LinkOneShrinks(row: Row, x: Link)
    requires row.Then?
    ensures var o := LinkOne(row, x);
            o.row.Then? && Total(o.row.rest) <= Total(row) && (Total(o.row.rest) < Total(row) || o.row.rest < row)
  {
    MinFits(|row.first.name|);
    assert Total(Absorbed(row)) == Total(row);
  }

  /** A search along the row: `link_proc` at one record after the other, until the name has a place. */
  function Search(row: Row, x: Link): (o: Outcome)
    decreases Total(row), row
  {
    if row == End then Outcome(End, false)
    else
      LinkOneShrinks(row, x);
      var o := LinkOne(row, x);
      if o.done then o else var after := Search(o.row.rest, x); Outcome(Then(o.row.first, after.row), after.done)
  }

  lemma AbsorbedShape(row: Row)
    requires row.Then? && AllProper(row)
    ensures var a := Absorbed(row); a.Then? && AllProper(a) && Total(a) == Total(row) && Live(a) == Live(row)
    ensures var r := Absorbed(row).first; r == row.first.(len := r.len) && row.first.len <= r.len
  {
    var Then(r, rest) := row;
    if rest.Then? {
      FoursSum(r.len, rest.first.len);
      if rest.first.inode == 0 {
        assert [] + Live(rest.rest) == Live(rest.rest);
      }
    }
  }

  lemma CutShape(r: Rec, rest: Row, x: Link)
    requires AllProper(Then(r, rest)) && r.inode != 0 && Taken(r) + Need(x) <= r.len
    ensures var row := Then(r.(len := Taken(r)), Then(Free(r.len - Taken(r)), rest));
            AllProper(row) && Total(row) == Total(Then(r, rest)) && Live(row) == Live(Then(r, rest))
    ensures Need(x) <= r.len - Taken(r) && HEAD <= Taken(r)
  {
    MinFits(|r.name|);
    MinFits(|x.name|);
    FoursSum(Taken(r), r.len - Taken(r));
    assert [] + Live(rest) == Live(rest);
  }

  /** The bytes are all there, and the live entries are as before but for the new one in front. */
  lemma LinkOneShape(row: Row, x: Link)
    requires row.Then? && AllProper(row)
    ensures var o := LinkOne(row, x);
            o.row.Then? && AllProper(o.row) && Total(o.row) == Total(row) && HEAD <= o.row.first.len
    ensures var o := LinkOne(row, x);
            Live(o.row) == (if o.done then LiveOne(o.row.first) else []) + Live(row)
    ensures var o := LinkOne(row, x);
            o.done ==> o.row.first == Filled(Absorbed(row).first, x)
  {
    AbsorbedShape(row);
    var Then(r, rest) := Absorbed(row);
    var o := LinkOne(row, x);
    if r.len < Taken(r) + Need(x) {
    } else if r.inode != 0 {
      CutShape(r, rest, x);
    } else {
      MinFits(|x.name|);
      assert [] + Live(rest) == Live(rest);
    }
    assert [] + Live(row) == Live(row);
  }

  /** The new entry: the type byte is that of the record it takes if it is not set. */
  ghost predicate IsEntry(y: Rec, x: Link) {
    y.inode == x.inode && y.name == x.name && (x.filetype ==> y.kind == x.flags % 8)
  }

  // ----- When there is room -----

  /** Some record has enough bytes to spare, all by itself. */
  ghost predicate Slack(row: Row, need: nat) {
    row.Then? && (Taken(row.first) + need <= row.first.len || Slack(row.rest, need))
  }

  /** Some record has enough bytes to spare together with a free one behind it. */
  ghost predicate SlackWithNext(row: Row, need: nat) {
    row.Then? && (Taken(row.first) + need <= Absorbed(row).first.len || SlackWithNext(row.rest, need))
  }

  /**
   What a call of `link_proc` at the first record of a row means for a search along the row: either the name is
   in front now and there was room for it, or the live entries are as before, slack is now found behind the first
   record, and there is none that was not there.
   */
  ghost predicate Searched(row: Row, row': Row, done: bool, x: Link) {
    && row.Then? && LinkOne(row, x) == Outcome(row', done)
    && row'.Then? && AllProper(row') && Total(row') == Total(row) && HEAD <= row'.first.len
    && (done ==> IsEntry(row'.first, x) && Live(row') == LiveOne(row'.first) + Live(row) && SlackWithNext(row, Need(x)))
    && (!done ==> Live(row') == Live(row) && (Slack(row, Need(x)) ==> Slack(row'.rest, Need(x))))
    && (!done ==> SlackWithNext(row'.rest, Need(x)) ==> SlackWithNext(row, Need(x)))
  }

  lemma LinkOneSearches(row: Row, x: Link)
    requires row.Then? && AllProper(row)
    ensures Searched(row, LinkOne(row, x).row, LinkOne(row, x).done, x)
  {
    LinkOneShape(row, x);
    AbsorbedShape(row);
    var Then(r, rest) := Absorbed(row);
    assert [] + Live(row) == Live(row);
    if Slack(row, Need(x)) {
      SlackAbsorbed(row, Need(x));
    }
    if r.len < Taken(r) + Need(x) {
      if SlackWithNext(rest, Need(x)) {
        SlackBehind(row, Need(x));
      }
    } else if r.inode != 0 {
      CutShape(r, rest, x);
    }
  }

  /** Absorbing loses no slack: what a free record has is found in the one that absorbs it. */
  lemma SlackAbsorbed(row: Row, need: nat)
    requires row.Then? && AllProper(row) && Slack(row, need)
    ensures Slack(Absorbed(row), need)
  {
    MinLeast(|row.first.name|, row.first.len);
  }

  lemma SlackBehind(row: Row, need: nat)
    requires row.Then? && SlackWithNext(Absorbed(row).rest, need)
    ensures SlackWithNext(row, need)
  {
  }

  lemma {:induction false} SlackFits(row: Row, need: nat)
    requires Slack(row, need)
    ensures need <= Total(row)
  {
    if Taken(row.first) + need > row.first.len {
      SlackFits(row.rest, need);
    }
  }

  /** Where a search finds no place, no record of what it leaves has enough bytes to spare. */
  lemma {:induction false} SearchFails(row: Row, x: Link)
    requires AllProper(row) && !Search(row, x).done
    ensures !Slack(Search(row, x).row, Need(x))
    decreases Total(row), row
  {
    if row.Then? {
      var o := LinkOne(row, x).row;
      LinkOneShape(row, x);
      LinkOneShrinks(row, x);
      SearchFails(o.rest, x);
      AbsorbedShape(row);
      var Then(r, rest) := Absorbed(row);
      if r.len >= Taken(r) + Need(x) && r.inode != 0 {
        FreeIsTaken(Free(r.len - Taken(r)), rest, x);
      }
    }
  }

  /** A free record behind another that is not the last eight bytes. */
  predicate FreeFollows(rest: Row) {
    rest.Then? && rest.first.inode == 0 && 8 < rest.first.len + Total(rest.rest)
  }

  /**
   Where a row has room, in lengths: at some record, what it can spare is enough, together with all of a free one
   behind it. A free record that has been looked at in this way is not looked at again.
   */
  predicate Gives(row: Row, need: nat) {
    row.Then? &&
    var Then(r, rest) := row;
    var taken := if r.inode == 0 then 0 else MinLen(|r.name|);
    if FreeFollows(rest) then taken + need <= r.len + rest.first.len || Gives(rest.rest, need)
    else taken + need <= r.len || Gives(rest, need)
  }

  /** The search finds a place exactly in such rows. */
  lemma {:induction false} SearchGives(row: Row, x: Link)
    requires AllProper(row)
    ensures Search(row, x).done <==> Gives(row, MinLen(|x.name|))
    decreases row
  {
    if row.Then? {
      AbsorbedShape(row);
      LinkOneShrinks(row, x);
      var Then(r, rest) := Absorbed(row);
      assert rest == if FreeFollows(row.rest) then row.rest.rest else row.rest;
      if r.len < Taken(r) + Need(x) {
        SearchGives(rest, x);
      } else if r.inode != 0 {
        FreeIsTaken(Free(r.len - Taken(r)), rest, x);
      }
    }
  }

  lemma FreeIsTaken(r: Rec, rest: Row, x: Link)
    requires r.inode == 0 && Need(x) <= r.len
    ensures Search(Then(r, rest), x).done
  {
    var a := Absorbed(Then(r, rest));
    assert r.len <= a.first.len && a.first.inode == 0;
    assert LinkOne(Then(r, rest), x).done;
  }

  /** t is s with xs put in before place `at`. */
  ghost predicate Inserted<T>(s: seq<T>, xs: seq<T>, t: seq<T>, at: nat) {
    at <= |s| && t == s[..at] + xs + s[at..]
  }

  // ----- The block in place -----

  /** `ext2fs_set_rec_len`, in a small block. */
  method SetRecLen(buf: array<char>, pos: nat, len: nat) returns (ok: bool)
    requires pos + HEAD <= buf.Length < U16
    modifies buf
    ensures ok <==> len <= buf.Length && Fours(len)
    ensures ok ==> RecLen(buf[..], pos) == len && Outside(old(buf[..]), buf[..], pos + 4, pos + 6)
    ensures !ok ==> buf[..] == old(buf[..])
  {
    FoursIs(len);
    if len > buf.Length || len % 4 != 0 {
      return false;
    }
    Put16(buf, pos + 4, len);
    return true;
  }

  /** The header at pos is in order, and the record ends in the block: what `ext2fs_process_dir_block` checks. */
  predicate EntryFits(s: seq<char>, pos: nat) {
    && pos + HEAD <= |s| && HEAD <= RecLen(s, pos) && Fours(RecLen(s, pos))
    && NameLen(s, pos) + HEAD <= RecLen(s, pos) && pos + RecLen(s, pos) <= |s|
  }

  /** t is s with another record length at pos. */
  ghost predicate Relength(s: seq<char>, t: seq<char>, pos: nat, len: nat) {
    pos + HEAD <= |s| && Outside(s, t, pos + 4, pos + 6) && RecLen(t, pos) == len
  }

  lemma RelengthHead(s: seq<char>, t: seq<char>, pos: nat, len: nat)
    requires Relength(s, t, pos, len) && pos + HEAD + NameLen(s, pos) <= |s|
    ensures Inode(t, pos) == Inode(s, pos) && NameLen(t, pos) == NameLen(s, pos) && Kind(t, pos) == Kind(s, pos)
    ensures t[pos + HEAD..pos + HEAD + NameLen(s, pos)] == s[pos + HEAD..pos + HEAD + NameLen(s, pos)]
  {
  }

  /** From pos to end there is another row now; the bytes before and behind stay. */
  ghost predicate Becomes(s: seq<char>, t: seq<char>, pos: nat, end: nat, row: Row) {
    SameIn(s, t, 0, pos) && SameIn(s, t, end, |s|) && Holds(t, pos, end, row)
  }

  lemma BecomesThen(s: seq<char>, a: seq<char>, t: seq<char>, pos: nat, end: nat, row: Row, row': Row)
    requires Becomes(s, a, pos, end, row) && Becomes(a, t, pos, end, row')
    ensures Becomes(s, t, pos, end, row')
  {
  }

  /** A free record behind the one at pos is absorbed. */
  method Absorb(buf: array<char>, pos: nat, end: nat, ghost row: Row) returns (ok: bool, changed: bool, len: nat)
    requires EntryFits(buf[..], pos) && end <= buf.Length < U16
    modifies buf
    ensures ok ==> EntryFits(buf[..], pos) && len == RecLen(buf[..], pos)
    ensures changed ==> ok
    ensures !changed ==> buf[..] == old(buf[..])
    ensures Holds(old(buf[..]), pos, end, row) && row.Then? ==>
              ok && Becomes(old(buf[..]), buf[..], pos, end, Absorbed(row))
  {
    ghost var s := buf[..];
    len := RecLen(buf[..], pos);
    var next := pos + len;
    changed, ok := false, true;
    if Holds(s, pos, end, row) && row.Then? {
      AbsorbedWhen(s, pos, end, row);
    }
    if next + HEAD < end && Inode(buf[..], next) == 0 && next + RecLen(buf[..], next) <= buf.Length {
      len := len + RecLen(buf[..], next);
      ok := SetRecLen(buf, pos, len);
      changed := ok;
      if ok {
        RelengthHead(s, buf[..], pos, len);
        if Holds(s, pos, end, row) && row.Then? {
          AbsorbHolds(s, buf[..], pos, end, row);
        }
      }
    }
  }

  lemma AbsorbedWhen(s: seq<char>, pos: nat, end: nat, row: Row)
    requires Holds(s, pos, end, row) && row.Then?
    ensures end <= |s|
    ensures var next := pos + row.first.len;
            Absorbed(row) != row <==> next + HEAD < end && Inode(s, next) == 0 && next + RecLen(s, next) <= |s|
    ensures var next := pos + row.first.len;
            next + HEAD < end && Inode(s, next) == 0 ==> Absorbed(row).first.len == row.first.len + RecLen(s, next)
    ensures RecLen(s, pos) == row.first.len && Fours(Absorbed(row).first.len) && pos + Absorbed(row).first.len <= end
  {
    HoldsTotal(s, pos, end, row);
    AbsorbedShape(row);
  }

  lemma AbsorbHolds(s: seq<char>, t: seq<char>, pos: nat, end: nat, row: Row)
    requires Holds(s, pos, end, row) && row.Then? && Relength(s, t, pos, Absorbed(row).first.len)
    ensures Becomes(s, t, pos, end, Absorbed(row))
  {
    HoldsTotal(s, pos, end, row);
    AbsorbedShape(row);
    var Then(r, rest) := Absorbed(row);
    HoldsKept(s, t, pos + r.len, end, rest);
    RelengthHead(s, t, pos, r.len);
  }

  /** The record at pos has been cut to min bytes, and a free record made of what it had beyond them. */
  ghost predicate Divided(s: seq<char>, t: seq<char>, pos: nat, min: nat, len: nat) {
    && HEAD <= min && min + HEAD <= len && pos + len <= |s| == |t|
    && RecLen(t, pos) == min && Inode(t, pos + min) == 0 && NameLen(t, pos + min) == 0
    && Kind(t, pos + min) == 0 && RecLen(t, pos + min) == len - min
    && SameIn(s, t, 0, pos + 4) && SameIn(s, t, pos + 6, pos + min) && SameIn(s, t, pos + min + HEAD, |s|)
  }

  method Divide(buf: array<char>, pos: nat, min: nat, len: nat)
    requires HEAD <= min && min + HEAD <= len && Fours(min) && Fours(len) && pos + len <= buf.Length < U16
    modifies buf
    ensures Divided(old(buf[..]), buf[..], pos, min, len)
  {
    var ok := SetRecLen(buf, pos, min);
    var next := pos + RecLen(buf[..], pos);
    Put32(buf, next, 0);
    Put8(buf, next + 6, 0);
    Put8(buf, next + 7, 0);
    FoursSum(min, len - min);
    ok := SetRecLen(buf, next, len - min);
  }

  lemma DivideHolds(s: seq<char>, t: seq<char>, pos: nat, end: nat, r: Rec, rest: Row, min: nat)
    requires Holds(s, pos, end, Then(r, rest)) && Divided(s, t, pos, min, r.len) && Fours(min) && HEAD + |r.name| <= min
    ensures Becomes(s, t, pos, end, Then(r.(len := min), Then(Free(r.len - min), rest)))
  {
    HoldsTotal(s, pos, end, Then(r, rest));
    DividedRecs(s, t, pos, r, min);
    DividedRest(s, t, pos, pos + min, pos + r.len, end, r, rest, min);
  }

  lemma DividedRest(s: seq<char>, t: seq<char>, pos: nat, next: nat, after: nat, end: nat, r: Rec, rest: Row, min: nat)
    requires next == pos + min && after == pos + r.len <= end <= |s| && Holds(s, after, end, rest)
    requires Divided(s, t, pos, min, r.len) && RecAt(t, pos, r.(len := min)) && RecAt(t, next, Free(r.len - min))
    ensures Becomes(s, t, pos, end, Then(r.(len := min), Then(Free(r.len - min), rest)))
  {
    HoldsKept(s, t, after, end, rest);
    assert Holds(t, next, end, Then(Free(r.len - min), rest));
  }

  lemma DividedRecs(s: seq<char>, t: seq<char>, pos: nat, r: Rec, min: nat)
    requires RecAt(s, pos, r) && Divided(s, t, pos, min, r.len) && Fours(min) && HEAD + |r.name| <= min
    ensures RecAt(t, pos, r.(len := min)) && RecAt(t, pos + min, Free(r.len - min))
  {
    FoursSum(min, r.len - min);
    SliceSame(s, t, pos + 6, pos + min, pos + HEAD, pos + HEAD + |r.name|);
  }

  /** The new entry is written; without the filetype feature it keeps the type byte it finds. */
  method Fill(buf: array<char>, pos: nat, x: Link)
    requires |x.name| < 0x100 && x.inode < U32 && pos + HEAD + |x.name| <= buf.Length
    modifies buf
    ensures Inode(buf[..], pos) == x.inode && NameLen(buf[..], pos) == |x.name|
    ensures buf[pos + HEAD..pos + HEAD + |x.name|] == x.name
    ensures RecLen(buf[..], pos) == RecLen(old(buf[..]), pos)
    ensures Kind(buf[..], pos) == if x.filetype then x.flags % 8 else Kind(old(buf[..]), pos)
    ensures Outside(old(buf[..]), buf[..], pos, pos + HEAD + |x.name|)
  {
    Put32(buf, pos, x.inode);
    Put8(buf, pos + 6, |x.name|);
    PutBytes(buf, pos + HEAD, x.name);
    if x.filetype {
      Put8(buf, pos + 7, x.flags % 8);
    }
  }

  lemma FillHolds(s: seq<char>, t: seq<char>, pos: nat, end: nat, r: Rec, rest: Row, x: Link)
    requires Holds(s, pos, end, Then(r, rest)) && Need(x) <= r.len && pos + HEAD + |x.name| <= |s| == |t|
    requires Inode(t, pos) == x.inode && NameLen(t, pos) == |x.name| && RecLen(t, pos) == RecLen(s, pos)
    requires Kind(t, pos) == if x.filetype then x.flags % 8 else Kind(s, pos)
    requires t[pos + HEAD..pos + HEAD + |x.name|] == x.name && Outside(s, t, pos, pos + HEAD + |x.name|)
    ensures Becomes(s, t, pos, end, Then(Filled(r, x), rest))
  {
    HoldsTotal(s, pos, end, Then(r, rest));
    MinFits(|x.name|);
    HoldsKept(s, t, pos + r.len, end, rest);
  }

  lemma DividedFits(s: seq<char>, t: seq<char>, pos: nat, min: nat, len: nat)
    requires Divided(s, t, pos, min, len) && Fours(min) && HEAD + NameLen(s, pos) <= min
    ensures EntryFits(t, pos)
  {
  }

  /** A live record gives away what it does not need. */
  method GiveAway(buf: array<char>, pos: nat, end: nat, x: Link, ghost row: Row)
    requires EntryFits(buf[..], pos) && buf.Length < U16
    requires MinLen(NameLen(buf[..], pos)) + Need(x) <= RecLen(buf[..], pos)
    modifies buf
    ensures EntryFits(buf[..], pos)
    ensures Holds(old(buf[..]), pos, end, row) && row.Then? && row.first.inode != 0 ==>
              Becomes(old(buf[..]), buf[..], pos, end, Then(row.first.(len := Taken(row.first)),
                                                            Then(Free(row.first.len - Taken(row.first)), row.rest)))
  {
    ghost var s := buf[..];
    MinFits(NameLen(buf[..], pos));
    MinFits(|x.name|);
    var min, len := MinLen(NameLen(buf[..], pos)), RecLen(buf[..], pos);
    Divide(buf, pos, min, len);
    DividedFits(s, buf[..], pos, min, len);
    if Holds(s, pos, end, row) && row.Then? {
      DivideHolds(s, buf[..], pos, end, row.first, row.rest, min);
    }
  }

  /** A free record takes the name. */
  method Take(buf: array<char>, pos: nat, end: nat, x: Link, ghost row: Row)
    requires EntryFits(buf[..], pos) && |x.name| < 0x100 && x.inode < U32 && Need(x) <= RecLen(buf[..], pos)
    modifies buf
    ensures Holds(old(buf[..]), pos, end, row) && row.Then? ==>
              Becomes(old(buf[..]), buf[..], pos, end, Then(Filled(row.first, x), row.rest))
  {
    ghost var s := buf[..];
    MinFits(|x.name|);
    Fill(buf, pos, x);
    if Holds(s, pos, end, row) && row.Then? {
      FillHolds(s, buf[..], pos, end, row.first, row.rest, x);
    }
  }

  /** Its effect on a row. */
  method LinkHere(buf: array<char>, pos: nat, end: nat, x: Link, ghost row: Row)
    returns (ok: bool, changed: bool, done: bool)
    requires EntryFits(buf[..], pos) && end <= buf.Length < U16 && |x.name| < 0x100 && x.inode < U32
    modifies buf
    ensures ok && !done ==> EntryFits(buf[..], pos)
    ensures !changed ==> buf[..] == old(buf[..]) && !done
    ensures Holds(old(buf[..]), pos, end, row) && row.Then? ==>
              ok && Becomes(old(buf[..]), buf[..], pos, end, LinkOne(row, x).row) && done == LinkOne(row, x).done
  {
    done := false;
    var len;
    ok, changed, len := Absorb(buf, pos, end, row);
    if !ok {
      return;
    }
    ghost var s, row' := buf[..], if row.Then? then Absorbed(row) else row;
    var live := Inode(buf[..], pos) != 0;
    if len < (if live then MinLen(NameLen(buf[..], pos)) else 0) + Need(x) {
      return;
    }
    changed := true;
    if live {
      GiveAway(buf, pos, end, x, row');
      if Holds(old(buf[..]), pos, end, row) && row.Then? {
        var r := row'.first;
        BecomesThen(old(buf[..]), s, buf[..], pos, end, row', Then(r.(len := Taken(r)), Then(Free(r.len - Taken(r)), row'.rest)));
      }
    } else {
      Take(buf, pos, end, x, row');
      done := true;
      if Holds(old(buf[..]), pos, end, row) && row.Then? {
        BecomesThen(old(buf[..]), s, buf[..], pos, end, row', Then(Filled(row'.first, x), row'.rest));
      }
    }
  }

  /** `link_proc`, at a record that `ext2fs_process_dir_block` has checked. */
  method LinkProc(buf: array<char>, pos: nat, end: nat, x: Link, ghost row: Row)
    returns (ok: bool, changed: bool, done: bool, ghost row': Row)
    requires EntryFits(buf[..], pos) && end <= buf.Length < U16 && |x.name| < 0x100 && x.inode < U32
    modifies buf
    ensures ok && !done ==> EntryFits(buf[..], pos)
    ensures !changed ==> buf[..] == old(buf[..]) && !done
    ensures Holds(old(buf[..]), pos, end, row) && row.Then? ==>
              ok && Becomes(old(buf[..]), buf[..], pos, end, row') && Searched(row, row', done, x)
  {
    ghost var s := buf[..];
    ghost var good := Holds(s, pos, end, row) && row.Then?;
    ok, changed, done := LinkHere(buf, pos, end, x, row);
    row' := row;
    if good {
      HoldsTotal(s, pos, end, row);
      LinkOneSearches(row, x);
      row' := LinkOne(row, x).row;
    }
  }

  // ----- The whole block -----

  /** `struct ext2_dir_entry_tail`, which holds the checksum of a block. */
  predicate IsTail(s: seq<char>, pos: nat)
    requires pos + HEAD <= |s|
  {
    Inode(s, pos) == 0 && RecLen(s, pos) == TAIL && NameLen(s, pos) == 0 && Kind(s, pos) == 0xDE
  }

  function TailSize(csum: bool): (n: nat) {
    if csum then TAIL else 0
  }

  /** The block is the row, and a checksum tail behind it where there is one. */
  ghost predicate Formed(s: seq<char>, row: Row, csum: bool) {
    TAIL <= |s| && Holds(s, 0, |s| - TailSize(csum), row) && (csum ==> IsTail(s, |s| - TAIL))
  }

  /** A walk has come to offset. */
  ghost predicate Walking(s: seq<char>, offset: nat, end: nat, before: Row, rest: Row) {
    Holds(s, 0, offset, before) && Holds(s, offset, end, rest)
  }

  /** The first record is now that of o, and the walk goes on behind it. */
  lemma WalkGoesOn(s: seq<char>, t: seq<char>, offset: nat, next: nat, end: nat, before: Row, before': Row, o: Row)
    requires Holds(s, 0, offset, before) && Becomes(s, t, offset, end, o) && o.Then?
    requires next == offset + o.first.len && before' == Append(before, Then(o.first, End))
    ensures Walking(t, next, end, before', o.rest) && RecAt(t, offset, o.first)
  {
    HoldsKept(s, t, 0, offset, before);
    FirstHolds(t, offset, next, end, o);
    HoldsAppend(t, 0, offset, next, before, Then(o.first, End));
  }

  lemma FirstHolds(t: seq<char>, offset: nat, next: nat, end: nat, o: Row)
    requires Holds(t, offset, end, o) && o.Then? && next == offset + o.first.len
    ensures Holds(t, offset, next, Then(o.first, End)) && Holds(t, next, end, o.rest) && RecAt(t, offset, o.first)
  {
  }

  lemma WalkEnds(s: seq<char>, t: seq<char>, offset: nat, end: nat, before: Row, o: Row)
    requires Holds(s, 0, offset, before) && Becomes(s, t, offset, end, o)
    ensures Holds(t, 0, end, Append(before, o))
  {
    HoldsKept(s, t, 0, offset, before);
    HoldsAppend(t, 0, offset, end, before, o);
  }

  /** What a search for room for x has made of the row: `before` lies behind it, `rest` in front of it. */
  ghost predicate Linking(row: Row, before: Row, rest: Row, x: Link) {
    && Search(row, x) == Outcome(Append(before, Search(rest, x).row), Search(rest, x).done)
    && Live(row) == Live(before) + Live(rest) && (Slack(row, Need(x)) ==> Slack(rest, Need(x)))
    && (SlackWithNext(rest, Need(x)) ==> SlackWithNext(row, Need(x)))
  }

  lemma {:induction false} AppendOne(a: Row, r: Rec, b: Row)
    ensures Append(Append(a, Then(r, End)), b) == Append(a, Then(r, b))
  {
    if a.Then? {
      AppendOne(a.rest, r, b);
    }
  }

  lemma LinkingNext(row: Row, before: Row, before': Row, rest: Row, o: Row, x: Link)
    requires Linking(row, before, rest, x) && Searched(rest, o, false, x) && before' == Append(before, Then(o.first, End))
    ensures Linking(row, before', o.rest, x)
  {
    AppendOne(before, o.first, Search(o.rest, x).row);
    LiveAppend(before, Then(o.first, End));
    assert LiveOne(o.first) + [] == LiveOne(o.first);
    Associate(Live(before), LiveOne(o.first), Live(o.rest));
  }

  /** The new row has exactly one more live entry, y; it is that of x. */
  ghost predicate Added(row: Row, row': Row, x: Link, y: Rec, at: nat) {
    IsEntry(y, x) && Inserted(Live(row), LiveOne(y), Live(row'), at)
  }

  lemma LinkingDone(row: Row, before: Row, rest: Row, o: Row, x: Link)
    requires Linking(row, before, rest, x) && Searched(rest, o, true, x)
    ensures Added(row, Append(before, o), x, o.first, |Live(before)|) && SlackWithNext(row, Need(x))
    ensures Search(row, x) == Outcome(Append(before, o), true)
  {
    LiveAppend(before, o);
    Associate(Live(before), LiveOne(o.first), Live(rest));
    assert Live(row)[..|Live(before)|] == Live(before) && Live(row)[|Live(before)|..] == Live(rest);
  }

  /** In the last eight bytes there is nothing to be found. */
  lemma TooShort(rest: Row, x: Link)
    requires AllProper(rest) && Total(rest) <= HEAD && x.name != ""
    ensures Search(rest, x) == Outcome(rest, false)
  {
    if rest.Then? {
      MinFits(|x.name|);
      assert !rest.rest.Then?;
      assert LinkOne(rest, x) == Outcome(rest, false);
    }
  }

  lemma LinkingEnds(row: Row, before: Row, rest: Row, x: Link)
    requires Linking(row, before, rest, x) && Total(rest) <= HEAD
    ensures Live(row) == Live(Append(before, rest)) && (x.name != "" ==> !Slack(row, Need(x)))
    ensures x.name != "" && AllProper(rest) ==> Search(row, x) == Outcome(Append(before, rest), false)
  {
    if x.name != "" && AllProper(rest) {
      TooShort(rest, x);
    }
    LiveAppend(before, rest);
    MinFits(|x.name|);
    if Slack(rest, Need(x)) {
      SlackFits(rest, Need(x));
    }
  }

  datatype Status = Going | Linked | NoSpace | Corrupted | Invalid

  /** The loop of `ext2fs_process_dir_block` stands at offset. */
  ghost predicate Stands(s: seq<char>, offset: nat, end: nat, row: Row, before: Row, rest: Row, x: Link) {
    Walking(s, offset, end, before, rest) && Linking(row, before, rest, x)
  }

  /** The walk goes on behind the first record of o. */
  ghost predicate GoesOn(t: seq<char>, offset: nat, next: nat, end: nat, row: Row, before: Row, o: Row, x: Link) {
    && o.Then? && offset + HEAD <= |t| && RecLen(t, offset) == o.first.len && next == offset + o.first.len
    && Stands(t, next, end, row, Append(before, Then(o.first, End)), o.rest, x)
  }

  /** The name has come in at the first record of o. */
  ghost predicate ComesIn(t: seq<char>, offset: nat, end: nat, row: Row, before: Row, o: Row, x: Link) {
    && o.Then? && offset + HEAD <= |t| && Holds(t, 0, end, Append(before, o)) && SlackWithNext(row, Need(x))
    && Added(row, Append(before, o), x, o.first, |Live(before)|) && Search(row, x) == Outcome(Append(before, o), true)
  }

  /** One call of `link_proc` in the loop: it goes on behind the first record, or is done. */
  ghost predicate Visited(t: seq<char>, offset: nat, next: nat, end: nat, row: Row, before: Row, o: Row, x: Link, done: bool) {
    if done then ComesIn(t, offset, end, row, before, o, x) else GoesOn(t, offset, next, end, row, before, o, x)
  }

  method Visit(buf: array<char>, offset: nat, end: nat, x: Link, ghost row: Row, ghost before: Row, ghost rest: Row)
    returns (status: Status, changed: bool, ghost o: Row, ghost next: nat)
    requires EntryFits(buf[..], offset) && end <= buf.Length < U16 && |x.name| < 0x100 && x.inode < U32
    modifies buf
    ensures status == Going || status == Linked || status == Invalid
    ensures status == Going ==> EntryFits(buf[..], offset)
    ensures !changed ==> buf[..] == old(buf[..]) && status != Linked
    ensures Stands(old(buf[..]), offset, end, row, before, rest, x) && rest.Then? ==>
              SameIn(old(buf[..]), buf[..], end, buf.Length) && status != Invalid &&
              Visited(buf[..], offset, next, end, row, before, o, x, status == Linked)
  {
    ghost var s := buf[..];
    var ok, done;
    ok, changed, done, o := LinkProc(buf, offset, end, x, rest);
    status, next := if !ok then Invalid else if done then Linked else Going, 0;
    if Stands(s, offset, end, row, before, rest, x) && rest.Then? {
      next := offset + o.first.len;
      VisitRight(s, buf[..], offset, next, end, row, before, rest, o, x, done);
    }
  }

  lemma VisitRight(s: seq<char>, t: seq<char>, offset: nat, next: nat, end: nat, row: Row, before: Row, rest: Row, o: Row,
                   x: Link, done: bool)
    requires o.Then? && next == offset + o.first.len
    requires Stands(s, offset, end, row, before, rest, x) && Becomes(s, t, offset, end, o) && Searched(rest, o, done, x)
    ensures Visited(t, offset, next, end, row, before, o, x, done)
  {
    if done {
      VisitEnds(s, t, offset, end, row, before, rest, o, x);
      return;
    }
    VisitGoesOn(s, t, offset, next, end, row, before, Append(before, Then(o.first, End)), rest, o, x);
  }

  lemma VisitEnds(s: seq<char>, t: seq<char>, offset: nat, end: nat, row: Row, before: Row, rest: Row, o: Row, x: Link)
    requires Stands(s, offset, end, row, before, rest, x) && Becomes(s, t, offset, end, o) && Searched(rest, o, true, x)
    ensures ComesIn(t, offset, end, row, before, o, x)
  {
    WalkEnds(s, t, offset, end, before, o);
    LinkingDone(row, before, rest, o, x);
    FirstHolds(t, offset, offset + o.first.len, end, o);
  }

  lemma VisitGoesOn(s: seq<char>, t: seq<char>, offset: nat, next: nat, end: nat, row: Row, before: Row, before': Row,
                    rest: Row, o: Row, x: Link)
    requires Stands(s, offset, end, row, before, rest, x) && Becomes(s, t, offset, end, o) && Searched(rest, o, false, x)
    requires before' == Append(before, Then(o.first, End)) && next == offset + o.first.len
    ensures GoesOn(t, offset, next, end, row, before, o, x)
  {
    WalkGoesOn(s, t, offset, next, end, before, before', o);
    LinkingNext(row, before, before', rest, o, x);
  }

  /** Where the loop may stand if the block was well formed when it began: in the row, or behind the tail. */
  ghost predicate InRow(s: seq<char>, offset: nat, end: nat, csum: bool, row: Row, before: Row, rest: Row, x: Link) {
    && (csum ==> end + TAIL == |s| && IsTail(s, end)) && (!csum ==> end == |s|)
    && (if offset <= end then Stands(s, offset, end, row, before, rest, x)
        else offset == |s| && rest == End && Stands(s, end, end, row, before, rest, x))
  }

  lemma RowBegins(s: seq<char>, end: nat, csum: bool, row: Row, x: Link)
    requires Formed(s, row, csum) && end == |s| - TailSize(csum)
    ensures InRow(s, 0, end, csum, row, End, row, x)
    ensures Search(row, x).done <==> Gives(row, MinLen(|x.name|))
  {
    assert [] + Live(row) == Live(row);
    HoldsTotal(s, 0, end, row);
    SearchGives(row, x);
  }

  /** The block is the new row, which has exactly one more live entry. */
  ghost predicate Finished(s: seq<char>, csum: bool, row: Row, row': Row, x: Link, y: Rec, at: nat) {
    Formed(s, row', csum) && Added(row, row', x, y, at) && SlackWithNext(row, Need(x)) && Search(row, x) == Outcome(row', true)
  }

  /** The block is a row with the same live entries, and no record of the old one had enough bytes to spare. */
  ghost predicate GaveUp(s: seq<char>, csum: bool, row: Row, row': Row, x: Link) {
    && Formed(s, row', csum) && Live(row') == Live(row)
    && (x.name != "" ==> !Slack(row, Need(x)) && Search(row, x) == Outcome(row', false))
  }

  lemma RowEnds(s: seq<char>, offset: nat, end: nat, csum: bool, row: Row, before: Row, rest: Row, x: Link)
    requires InRow(s, offset, end, csum, row, before, rest, x) && offset + HEAD >= |s| >= TAIL
    ensures GaveUp(s, csum, row, Append(before, rest), x)
  {
    RowEndsAt(s, if offset <= end then offset else end, end, csum, row, before, rest, x);
  }

  lemma RowEndsAt(s: seq<char>, offset: nat, end: nat, csum: bool, row: Row, before: Row, rest: Row, x: Link)
    requires Stands(s, offset, end, row, before, rest, x) && offset + HEAD >= end == |s| - TailSize(csum) && TAIL <= |s|
    requires csum ==> IsTail(s, end)
    ensures GaveUp(s, csum, row, Append(before, rest), x)
  {
    HoldsTotal(s, offset, end, rest);
    AllWalked(s, offset, end, before, rest);
    LinkingEnds(row, before, rest, x);
  }

  lemma AllWalked(s: seq<char>, offset: nat, end: nat, before: Row, rest: Row)
    requires Walking(s, offset, end, before, rest)
    ensures Holds(s, 0, end, Append(before, rest))
  {
    HoldsAppend(s, 0, offset, end, before, rest);
  }

  /** In a well-formed block the loop comes to a record of the row, or to the tail. */
  lemma AtRecord(s: seq<char>, offset: nat, end: nat, csum: bool, row: Row, before: Row, rest: Row, x: Link)
    requires InRow(s, offset, end, csum, row, before, rest, x) && offset + HEAD < |s|
    ensures EntryFits(s, offset) && offset <= end
    ensures if offset == end then csum && rest == End else rest.Then? && Stands(s, offset, end, row, before, rest, x)
  {
    if offset <= end {
      HoldsTotal(s, offset, end, rest);
      FoursIs(TAIL);
    }
  }

  lemma TailKept(s: seq<char>, t: seq<char>, end: nat)
    requires end + TAIL == |s| && IsTail(s, end) && SameIn(s, t, end, |s|)
    ensures IsTail(t, end)
  {
  }

  lemma StillInRow(s: seq<char>, offset: nat, end: nat, csum: bool, row: Row, before: Row, rest: Row, x: Link)
    requires Stands(s, offset, end, row, before, rest, x)
    requires (csum ==> end + TAIL == |s| && IsTail(s, end)) && (!csum ==> end == |s|)
    ensures InRow(s, offset, end, csum, row, before, rest, x)
  {
    HoldsTotal(s, offset, end, rest);
  }

  lemma TurnNext(s: seq<char>, t: seq<char>, offset: nat, offset': nat, next: nat, end: nat, csum: bool, row: Row, before: Row,
                 rest: Row, o: Row, x: Link)
    requires InRow(s, offset, end, csum, row, before, rest, x) && offset < end && SameIn(s, t, end, |s|)
    requires GoesOn(t, offset, next, end, row, before, o, x) && offset' == offset + RecLen(t, offset)
    ensures InRow(t, offset', end, csum, row, Append(before, Then(o.first, End)), o.rest, x)
  {
    if csum {
      TailKept(s, t, end);
    }
    assert next == offset';
    StillInRow(t, next, end, csum, row, Append(before, Then(o.first, End)), o.rest, x);
  }

  lemma TurnDone(s: seq<char>, t: seq<char>, offset: nat, end: nat, csum: bool, row: Row, before: Row, rest: Row,
                 o: Row, row': Row, x: Link)
    requires InRow(s, offset, end, csum, row, before, rest, x) && offset < end && SameIn(s, t, end, |s|) && TAIL <= |s|
    requires ComesIn(t, offset, end, row, before, o, x) && row' == Append(before, o)
    ensures Finished(t, csum, row, row', x, o.first, |Live(before)|)
  {
    if csum {
      TailKept(s, t, end);
    }
    DoneFormed(t, offset, end, csum, row, before, o, row', x);
  }

  lemma DoneFormed(t: seq<char>, offset: nat, end: nat, csum: bool, row: Row, before: Row, o: Row, row': Row, x: Link)
    requires ComesIn(t, offset, end, row, before, o, x) && row' == Append(before, o) && TAIL <= |t|
    requires end == |t| - TailSize(csum) && (csum ==> IsTail(t, end))
    ensures Finished(t, csum, row, row', x, o.first, |Live(before)|)
  {
  }

  /** One turn of the loop. */
  method Turn(buf: array<char>, offset: nat, end: nat, csum: bool, x: Link, ghost row: Row, ghost before: Row, ghost rest: Row)
    returns (status: Status, changed: bool, offset': nat, ghost before': Row, ghost o: Row)
    requires TAIL <= buf.Length < U16 && end == buf.Length - TailSize(csum) && |x.name| < 0x100 && x.inode < U32
    requires offset + HEAD < buf.Length
    modifies buf
    ensures offset < offset' <= buf.Length && status != NoSpace
    ensures !changed ==> buf[..] == old(buf[..])
    ensures InRow(old(buf[..]), offset, end, csum, row, before, rest, x) ==> status == Going || status == Linked
    ensures InRow(old(buf[..]), offset, end, csum, row, before, rest, x) && status == Going ==>
              InRow(buf[..], offset', end, csum, row, before', o, x)
    ensures InRow(old(buf[..]), offset, end, csum, row, before, rest, x) && status == Linked ==>
              o.Then? && Finished(buf[..], csum, row, before', x, o.first, |Live(before)|)
  {
    ghost var s := buf[..];
    ghost var good := InRow(s, offset, end, csum, row, before, rest, x);
    status, changed, offset', before', o := Going, false, buf.Length, before, rest;
    if good {
      AtRecord(s, offset, end, csum, row, before, rest, x);
    }
    if !EntryFits(buf[..], offset) {
      status := Corrupted;
      return;
    }
    if csum && offset == end && IsTail(buf[..], offset) {
      offset' := offset + RecLen(buf[..], offset);
      return;
    }
    ghost var next;
    status, changed, o, next := Visit(buf, offset, end, x, row, before, rest);
    offset' := if status == Going then offset + RecLen(buf[..], offset) else buf.Length;
    if good {
      if status == Linked {
        before' := Append(before, o);
        TurnDone(s, buf[..], offset, end, csum, row, before, rest, o, before', x);
      } else {
        TurnNext(s, buf[..], offset, offset', next, end, csum, row, before, rest, o, x);
        before', o := Append(before, Then(o.first, End)), o.rest;
      }
    }
  }

  /**
   `ext2fs_process_dir_block` with `link_proc`. In a well-formed block, with or without a checksum tail, the live
   entries stay in order and the block stays well formed; a name is added exactly if some record has enough bytes
   to spare, with a free one behind it as Gives says. What becomes of the row is Search. The
   block is to be written if it has changed.
   */
  method LinkBlock(buf: array<char>, csum: bool, x: Link, ghost row: Row)
    returns (status: Status, write: bool, ghost row': Row, ghost y: Rec, ghost at: nat)
    requires TAIL <= buf.Length < U16 && |x.name| < 0x100 && x.inode < U32
    modifies buf
    ensures status != Going
    ensures Formed(old(buf[..]), row, csum) ==> status == Linked || status == NoSpace
    ensures Formed(old(buf[..]), row, csum) && x.name != "" ==> (status == Linked <==> Gives(row, MinLen(|x.name|)))
    ensures Formed(old(buf[..]), row, csum) && status == Linked ==> Finished(buf[..], csum, row, row', x, y, at)
    ensures Formed(old(buf[..]), row, csum) && status == NoSpace ==> GaveUp(buf[..], csum, row, row', x)
    ensures status != Corrupted && !write ==> buf[..] == old(buf[..])
  {
    var end, offset, changed := buf.Length - TailSize(csum), 0, false;
    ghost var before, rest, good := End, row, Formed(buf[..], row, csum);
    status, write, row', y, at := Going, false, row, Free(0), 0;
    if good {
      RowBegins(buf[..], end, csum, row, x);
    }
    while offset + HEAD < buf.Length
      invariant offset <= buf.Length && status == Going
      invariant good ==> InRow(buf[..], offset, end, csum, row, before, rest, x)
      invariant !write ==> buf[..] == old(buf[..])
      decreases buf.Length - offset
    {
      at := |Live(before)|;
      status, changed, offset, before, rest := Turn(buf, offset, end, csum, x, row, before, rest);
      write := status != Corrupted && (write || changed);
      if status != Going {
        row', y := before, if rest.Then? then rest.first else Free(0);
        return;
      }
    }
    status := NoSpace;
    row' := Append(before, rest);
    if good {
      RowEnds(buf[..], offset, end, csum, row, before, rest, x);
    }
  }
}
