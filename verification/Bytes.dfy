/**
 Numbers in byte buffers, least significant byte first, as directory blocks and extended attributes hold
 them. A character is a byte.
 */
module Bytes {

  const U16 := 0x1_0000
  const U32 := 0x1_0000_0000

  /** Rounding up to a multiple of four. */
  function Round(n: nat): (m: nat) {
    if n == 0 then 0 else if n < 4 then 4 else Round(n - 4) + 4
  }

  lemma {:induction false} RoundIs(n: nat)
    ensures Round(n) == (n + 3) / 4 * 4
  {
    if n >= 4 {
      RoundIs(n - 4);
    }
  }

  /** A multiple of four. */
  predicate Fours(n: nat) {
    n == 0 || (n >= 4 && Fours(n - 4))
  }

  lemma {:induction false} FoursIs(n: nat)
    ensures Fours(n) <==> n % 4 == 0
  {
    if n >= 4 {
      FoursIs(n - 4);
    }
  }

  lemma FoursSum(a: nat, b: nat)
    requires Fours(a)
    ensures Fours(b) <==> Fours(a + b)
  {
    FoursIs(a);
    FoursIs(b);
    FoursIs(a + b);
  }

  function U16At(s: seq<char>, pos: nat): (x: nat)
    requires pos + 2 <= |s|
  {
    s[pos] as int + 0x100 * s[pos + 1] as int
  }

  function U32At(s: seq<char>, pos: nat): (x: nat)
    requires pos + 4 <= |s|
  {
    U16At(s, pos) + U16 * U16At(s, pos + 2)
  }

  /** All bytes but those from lo to hi stay. */
  ghost predicate Outside(s: seq<char>, t: seq<char>, lo: nat, hi: nat) {
    |t| == |s| && forall k :: 0 <= k < |s| && !(lo <= k < hi) ==> t[k] == s[k]
  }

  method Put8(buf: array<char>, pos: nat, x: nat)
    requires pos < buf.Length && x < 0x100
    modifies buf
    ensures buf[pos] as int == x
    ensures Outside(old(buf[..]), buf[..], pos, pos + 1)
  {
    buf[pos] := x as char;
  }

  method Put16(buf: array<char>, pos: nat, x: nat)
    requires pos + 2 <= buf.Length
    modifies buf
    ensures U16At(buf[..], pos) == x % U16
    ensures Outside(old(buf[..]), buf[..], pos, pos + 2)
  {
    buf[pos] := (x % 0x100) as char;
    buf[pos + 1] := (x / 0x100 % 0x100) as char;
  }

  method Put32(buf: array<char>, pos: nat, x: nat)
    requires pos + 4 <= buf.Length
    modifies buf
    ensures U32At(buf[..], pos) == x % U32
    ensures Outside(old(buf[..]), buf[..], pos, pos + 4)
  {
    Put16(buf, pos, x % U16);
    Put16(buf, pos + 2, x / U16);
    Halves(x);
  }

  lemma Halves(x: nat)
    ensures x % U16 % U16 + U16 * (x / U16 % U16) == x % U32
  {
  }

  method PutBytes(buf: array<char>, pos: nat, s: seq<char>)
    requires pos + |s| <= buf.Length
    modifies buf
    ensures Outside(old(buf[..]), buf[..], pos, pos + |s|) && buf[pos..pos + |s|] == s
  {
    forall k | 0 <= k < |s| {
      buf[pos + k] := s[k];
    }
  }

  /** The bytes from lo to hi are the same. */
  ghost predicate SameIn(s: seq<char>, t: seq<char>, lo: nat, hi: nat) {
    hi <= |s| == |t| && forall x :: lo <= x < hi ==> t[x] == s[x]
  }

  lemma SliceSame(s: seq<char>, t: seq<char>, lo: nat, hi: nat, lo': nat, hi': nat)
    requires SameIn(s, t, lo, hi) && lo <= lo' <= hi' <= hi
    ensures s[lo'..hi'] == t[lo'..hi']
  {
  }
}
