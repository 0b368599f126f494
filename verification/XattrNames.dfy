/**
 The names of extended attributes in libext2fs/ext_attr.c: a full name is a prefix with an index and a
 short name, and the entries of a block are ordered by index, length and bytes of the short name.
 */
module XattrNames {

  datatype NameIndex = NameIndex(index: nat, name: string)

  /** `ea_names`. */
  const EA_NAMES: seq<NameIndex> := [
    NameIndex(10, "gnu."),
    NameIndex(3, "system.posix_acl_default"),
    NameIndex(2, "system.posix_acl_access"),
    NameIndex(8, "system.richacl"),
    NameIndex(6, "security."),
    NameIndex(4, "trusted."),
    NameIndex(7, "system."),
    NameIndex(1, "user.")
  ]

  predicate StartsWith(s: string, prefix: string) {
    |prefix| <= |s| && s[..|prefix|] == prefix
  }

  /** The prefix of the first entry of a table with an index, or nothing. */
  function PrefixIn(t: seq<NameIndex>, index: nat): (prefix: string) {
    if t == [] then "" else if t[0].index == index then t[0].name else PrefixIn(t[1..], index)
  }

  /** The first entry of a table that a name begins with: its number, or the length of the table. */
  function Match(t: seq<NameIndex>, name: string): (i: nat)
    ensures i <= |t| && (i < |t| ==> StartsWith(name, t[i].name))
    ensures forall j :: 0 <= j < i ==> !StartsWith(name, t[j].name)
  {
    if t == [] then 0 else if StartsWith(name, t[0].name) then 0 else 1 + Match(t[1..], name)
  }

  /** `find_ea_prefix`. */
  method FindPrefix(index: nat) returns (prefix: string)
    ensures prefix == PrefixIn(EA_NAMES, index)
  {
    var t := EA_NAMES;
    for i := 0 to |t|
      invariant PrefixIn(t, index) == PrefixIn(t[i..], index)
    {
      if t[i].index == index {
        return t[i].name;
      }
    }
    return "";
  }

  /** What `find_ea_index` finds. */
  function Short(name: string): (short: string) {
    var i := Match(EA_NAMES, name);
    if i < |EA_NAMES| then name[|EA_NAMES[i].name|..] else name
  }

  function Index(name: string): (index: nat) {
    var i := Match(EA_NAMES, name);
    if i < |EA_NAMES| then EA_NAMES[i].index else 0
  }

  /** `find_ea_index`. */
  method FindIndex(name: string) returns (short: string, index: nat)
    ensures short == Short(name) && index == Index(name)
  {
    var t := EA_NAMES;
    for i := 0 to |t|
      invariant Match(t, name) >= i
    {
      if StartsWith(name, t[i].name) {
        return name[|t[i].name|..], t[i].index;
      }
    }
    return name, 0;
  }

  lemma {:induction false} PrefixAt(t: seq<NameIndex>, i: nat)
    requires i < |t| && forall j :: 0 <= j < i ==> t[j].index != t[i].index
    ensures PrefixIn(t, t[i].index) == t[i].name
  {
    if i > 0 {
      assert t[1..][i - 1] == t[i];
      PrefixAt(t[1..], i - 1);
    }
  }

  lemma {:induction false} PrefixNone(t: seq<NameIndex>, index: nat)
    requires forall j :: 0 <= j < |t| ==> t[j].index != index
    ensures PrefixIn(t, index) == ""
  {
    if t != [] {
      PrefixNone(t[1..], index);
    }
  }

  lemma IndexesDiffer()
    ensures forall i, j :: 0 <= i < j < |EA_NAMES| ==> EA_NAMES[i].index != EA_NAMES[j].index
    ensures forall i :: 0 <= i < |EA_NAMES| ==> EA_NAMES[i].index != 0
  {
    assert EA_NAMES[0].index == 10 && EA_NAMES[1].index == 3 && EA_NAMES[2].index == 2 && EA_NAMES[3].index == 8;
    assert EA_NAMES[4].index == 6 && EA_NAMES[5].index == 4 && EA_NAMES[6].index == 7 && EA_NAMES[7].index == 1;
  }

  /** The prefix of the index and the short name make up the name. */
  lemma NameComposed(name: string)
    ensures PrefixIn(EA_NAMES, Index(name)) + Short(name) == name
  {
    var i := Match(EA_NAMES, name);
    if i < |EA_NAMES| {
      IndexesDiffer();
      PrefixAt(EA_NAMES, i);
    } else {
      IndexesDiffer();
      PrefixNone(EA_NAMES, 0);
    }
  }

  /**
   The other way round: entry i of the table and a short name are found again exactly when the name they make
   does not begin with an earlier entry, as "system." does with "posix_acl_access".
   */
  lemma IndexOfComposed(i: nat, short: string)
    requires i < |EA_NAMES|
    ensures var name := EA_NAMES[i].name + short;
            (Index(name) == EA_NAMES[i].index && Short(name) == short)
            <==> forall j :: 0 <= j < i ==> !StartsWith(name, EA_NAMES[j].name)
  {
    var name := EA_NAMES[i].name + short;
    assert StartsWith(name, EA_NAMES[i].name);
    IndexesDiffer();
    assert Match(EA_NAMES, name) <= i;
  }

  /** What stays of a name behind a prefix, and its index. */
  ghost predicate Splits(name: string, index: nat, short: string) {
    Index(name) == index && Short(name) == short
  }

  /** The indexes on disk of the prefixes, and of the names that are given whole. */
  lemma PlainNames(s: string)
    ensures Splits("user." + s, 1, s) && Splits("trusted." + s, 4, s) && Splits("security." + s, 6, s)
    ensures Splits("gnu." + s, 10, s) && Splits("system.richacl", 8, "")
    ensures Splits("system.posix_acl_access", 2, "") && Splits("system.posix_acl_default", 3, "")
  {
    Matched("user." + s, 7, s);
    Matched("trusted." + s, 5, s);
    Matched("security." + s, 4, s);
    Matched("gnu." + s, 0, s);
    MatchedWhole(1);
    MatchedWhole(2);
    MatchedWhole(3);
  }

  /** Only behind "system." there are names that an earlier entry takes. */
  lemma SystemNames(s: string)
    ensures Splits("system." + s, 7, s)
       <==> !StartsWith(s, "posix_acl_default") && !StartsWith(s, "posix_acl_access") && !StartsWith(s, "richacl")
  {
    BehindSystem(s, "posix_acl_default");
    BehindSystem(s, "posix_acl_access");
    BehindSystem(s, "richacl");
    OtherLetters("system." + s);
    BehindEntries();
    BehindAccess();
    IndexOfComposed(6, s);
  }

  lemma BehindEntries()
    ensures EA_NAMES[1].name == "system." + "posix_acl_default"
    ensures EA_NAMES[3].name == "system." + "richacl" && EA_NAMES[6] == NameIndex(7, "system.")
  {
  }

  lemma BehindAccess()
    ensures EA_NAMES[2].name == "system." + "posix_acl_access"
  {
  }

  lemma OtherLetters(name: string)
    requires |name| >= 2 && name[0] == 's' && name[1] == 'y'
    ensures forall j | j == 0 || j == 4 || j == 5 :: !StartsWith(name, EA_NAMES[j].name)
  {
    assert EA_NAMES[0].name[0] == 'g' && EA_NAMES[4].name[1] == 'e' && EA_NAMES[5].name[0] == 't';
  }

  lemma BehindSystem(s: string, t: string)
    ensures StartsWith("system." + s, "system." + t) <==> StartsWith(s, t)
  {
    var name := "system." + s;
    if |t| <= |s| {
      assert name[..7 + |t|] == "system." + s[..|t|];
      assert ("system." + t)[7..] == t && ("system." + s[..|t|])[7..] == s[..|t|];
    }
  }

  lemma Matched(name: string, i: nat, s: string)
    requires i < |EA_NAMES| && (i == 0 || 4 <= i) && name == EA_NAMES[i].name + s
    requires i > 0 ==> name[0] != 'g' && (name[0] != 's' || name[1] != 'y')
    requires i > 4 ==> name[0] != 's'
    requires i > 5 ==> name[0] != 't'
    ensures Splits(name, EA_NAMES[i].index, s)
  {
    if i > 0 {
      assert EA_NAMES[1].name[1] == 'y' && EA_NAMES[2].name[1] == 'y' && EA_NAMES[3].name[1] == 'y' && EA_NAMES[6].name[1] == 'y';
      assert EA_NAMES[4].name[0] == 's' && EA_NAMES[5].name[0] == 't';
    }
    IndexOfComposed(i, s);
  }

  lemma MatchedWhole(i: nat)
    requires 1 <= i <= 3
    ensures Splits(EA_NAMES[i].name, EA_NAMES[i].index, "")
  {
    var name := EA_NAMES[i].name;
    assert name + "" == name;
    assert EA_NAMES[0].name[0] == 'g';
    assert EA_NAMES[1].name[7] == 'p' && EA_NAMES[2].name[7] == 'p' && EA_NAMES[3].name[7] == 'r';
    assert EA_NAMES[1].name[17] == 'd' && EA_NAMES[2].name[17] == 'a';
    IndexOfComposed(i, "");
  }

  // ----- The order of the entries in a block -----

  datatype Key = Key(index: nat, short: string)

  /** `memcmp(s, t) < 0`, for strings of one length. */
  predicate BytesLess(s: string, t: string)
    requires |s| == |t|
  {
    s != [] && (s[0] < t[0] || (s[0] == t[0] && BytesLess(s[1..], t[1..])))
  }

  /** Ordered by index, length and bytes. */
  predicate Less(a: Key, b: Key) {
    a.index < b.index || (a.index == b.index &&
      (|a.short| < |b.short| || (|a.short| == |b.short| && BytesLess(a.short, b.short))))
  }

  lemma {:induction false} BytesTotal(s: string, t: string)
    requires |s| == |t|
    ensures !(BytesLess(s, t) && BytesLess(t, s)) && (s != t ==> BytesLess(s, t) || BytesLess(t, s)) && !BytesLess(s, s)
  {
    if s != [] {
      BytesTotal(s[1..], t[1..]);
      BytesTotal(s[1..], s[1..]);
      assert s == [s[0]] + s[1..] && t == [t[0]] + t[1..];
    }
  }

  lemma {:induction false} BytesTransitive(s: string, t: string, u: string)
    requires |s| == |t| == |u| && BytesLess(s, t) && BytesLess(t, u)
    ensures BytesLess(s, u)
  {
    if s[0] == t[0] && t[0] == u[0] {
      BytesTransitive(s[1..], t[1..], u[1..]);
    }
  }

  /** The first byte that is not the same decides. */
  lemma {:induction false} BytesLessIs(s: string, t: string)
    requires |s| == |t|
    ensures BytesLess(s, t) <==> exists i :: 0 <= i < |s| && s[..i] == t[..i] && s[i] < t[i]
  {
    if s != [] {
      BytesLessIs(s[1..], t[1..]);
      if s[0] == t[0] {
        forall i | 0 < i < |s| ensures s[..i] == t[..i] <==> s[1..][..i - 1] == t[1..][..i - 1] {
          assert s[..i][1..] == s[1..][..i - 1] && t[..i][1..] == t[1..][..i - 1];
          assert s[..i] == [s[0]] + s[1..][..i - 1] && t[..i] == [t[0]] + t[1..][..i - 1];
        }
      }
    }
  }

  /** Index first, then length, then bytes. */
  lemma LessIs(a: Key, b: Key)
    ensures Less(a, b) <==>
            || a.index < b.index
            || (a.index == b.index && |a.short| < |b.short|)
            || (a.index == b.index && |a.short| == |b.short| &&
                exists i :: 0 <= i < |a.short| && a.short[..i] == b.short[..i] && a.short[i] < b.short[i])
  {
    if |a.short| == |b.short| {
      BytesLessIs(a.short, b.short);
    }
  }

  lemma LessTotal(a: Key, b: Key)
    ensures !(Less(a, b) && Less(b, a)) && (a != b ==> Less(a, b) || Less(b, a))
  {
    if |a.short| == |b.short| {
      BytesTotal(a.short, b.short);
    }
  }

  lemma LessTransitive(a: Key, b: Key, c: Key)
    requires Less(a, b) && Less(b, c)
    ensures Less(a, c)
  {
    if a.index == b.index == c.index && |a.short| == |b.short| == |c.short| {
      BytesTransitive(a.short, b.short, c.short);
    }
  }
}
