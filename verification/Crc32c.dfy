/**
 Model of libext2fs/crc32c.c: the bitwise CRC32C and its slicing-by-8 form (CRC_LE_BITS == 64,
 little-endian).

 A `uint32_t` is the sequence of its 32 bits, least significant first, and a byte the sequence of
 its 8 bits: `x >> n` drops the first n bits, `(x >> n) & 255` is `x[n..n + 8]`, and reading a
 little-endian word concatenates its four bytes. The polynomial is the one of section 12.1 of
 RFC 3720, bit-reversed; the seed is the caller's and nothing is inverted at the end.
 */
module Crc32c {

  type Bits = seq<bool>
  type Word = w: seq<bool> | |w| == 32 witness seq(32, _ => false)
  type Byte = b: seq<bool> | |b| == 8 witness seq(8, _ => false)

  /** CRC32C_POLY_LE, 0x82F63B78, from the digit 8 at the low end up. */
  const POLYNOMIAL: Word :=
    [false, false, false, true]    // 8
    + [true, true, true, false]    // 7
    + [true, true, false, true]    // B
    + [true, true, false, false]   // 3
    + [false, true, true, false]   // 6
    + [true, true, true, true]     // F
    + [false, true, false, false]  // 2
    + [false, false, false, true]  // 8

  function Zeros(n: nat): (z: Bits)
    ensures |z| == n
  {
    seq(n, _ => false)
  }

  function Xor(x: Bits, y: Bits): (z: Bits)
    requires |x| == |y|
    ensures |z| == |x|
  {
    seq(|x|, i requires 0 <= i < |x| => x[i] != y[i])
  }

  // ----- The bitwise definition (CRC_LE_BITS == 1) -----

  /** `crc ^= *p`: the byte is zero-extended. */
  function XorByte(crc: Word, b: Byte): (r: Word) {
    Xor(crc, b + Zeros(24))
  }

  /** `(crc >> 1) ^ ((crc & 1) ? polynomial : 0)`. */
  function Shift(crc: Word): (r: Word) {
    Xor(crc[1..] + [false], if crc[0] then POLYNOMIAL else Zeros(32))
  }

  function Shifts(n: nat, crc: Word): (r: Word) {
    if n == 0 then crc else Shifts(n - 1, Shift(crc))
  }

  /** The register after the bytes of `buf`, one bit at a time. */
  function Bitwise(crc: Word, buf: seq<Byte>): (r: Word)
    decreases |buf|
  {
    if buf == [] then crc else Bitwise(Shifts(8, XorByte(crc, buf[0])), buf[1..])
  }

  lemma {:induction false} BitwiseConcat(crc: Word, a: seq<Byte>, b: seq<Byte>)
    ensures Bitwise(crc, a + b) == Bitwise(Bitwise(crc, a), b)
    decreases |a|
  {
    if a == [] {
      assert a + b == b;
    } else {
      assert (a + b)[1..] == a[1..] + b;
      BitwiseConcat(Shifts(8, XorByte(crc, a[0])), a[1..], b);
    }
  }

  // ----- Linearity -----

  lemma ShiftLinear(x: Word, y: Word)
    ensures Shift(Xor(x, y)) == Xor(Shift(x), Shift(y))
  {
  }

  lemma {:induction false} ShiftsLinear(n: nat, x: Word, y: Word)
    ensures Shifts(n, Xor(x, y)) == Xor(Shifts(n, x), Shifts(n, y))
  {
    if n > 0 {
      ShiftLinear(x, y);
      ShiftsLinear(n - 1, Shift(x), Shift(y));
    }
  }

  lemma {:induction false} ShiftsAdd(m: nat, n: nat, x: Word)
    ensures Shifts(m + n, x) == Shifts(n, Shifts(m, x))
  {
    if m > 0 {
      ShiftsAdd(m - 1, n, Shift(x));
    }
  }

  /** Low zero bits are shifted out without touching the polynomial. */
  lemma {:induction false} ShiftsOut(n: nat, x: Bits)
    requires n + |x| == 32
    ensures Shifts(n, Zeros(n) + x) == x + Zeros(n)
  {
    ShiftsOutPadded(n, 0, x);
    assert Zeros(n) + x == Zeros(n) + x + Zeros(0);
  }

  lemma {:induction false} ShiftsOutPadded(n: nat, m: nat, x: Bits)
    requires n + |x| + m == 32
    ensures Shifts(n, Zeros(n) + x + Zeros(m)) == x + Zeros(n + m)
  {
    if n == 0 {
      assert Zeros(0) + x == x;
    } else {
      assert Shift(Zeros(n) + x + Zeros(m)) == Zeros(n - 1) + x + Zeros(m + 1);
      ShiftsOutPadded(n - 1, m + 1, x);
    }
  }

  // ----- The tables -----

  function ZeroBytes(k: nat): (z: seq<Byte>)
    ensures |z| == k
  {
    seq(k, _ => Zeros(8))
  }

  /** The entry of table k for byte b: the CRC of b followed by k zero bytes. */
  function Entry(k: nat, b: Byte): (r: Word) {
    Bitwise(Zeros(32), [b] + ZeroBytes(k))
  }

  type Tables = (nat, Byte) -> Word

  /** `crc32ctable_le`: eight tables of 256 words. */
  ghost predicate AreTables(tab: Tables) {
    forall k, b :: 0 <= k < 8 ==> tab(k, b) == Entry(k, b)
  }

  lemma {:induction false} BitwiseZeros(crc: Word, k: nat)
    ensures Bitwise(crc, ZeroBytes(k)) == Shifts(8 * k, crc)
    decreases k
  {
    if k > 0 {
      assert XorByte(crc, Zeros(8)) == crc;
      assert ZeroBytes(k)[1..] == ZeroBytes(k - 1);
      BitwiseZeros(Shifts(8, crc), k - 1);
      ShiftsAdd(8, 8 * (k - 1), crc);
    }
  }

  lemma EntryIsShifted(k: nat, b: Byte)
    ensures Entry(k, b) == Shifts(8 * (k + 1), b + Zeros(24))
  {
    assert XorByte(Zeros(32), b) == b + Zeros(24);
    assert ([b] + ZeroBytes(k))[1..] == ZeroBytes(k);
    BitwiseZeros(Shifts(8, b + Zeros(24)), k);
    ShiftsAdd(8, 8 * k, b + Zeros(24));
  }

  // ----- The two steps of crc32_body -----

  /** `DO_CRC(x)`: `t0[(crc ^ x) & 255] ^ (crc >> 8)`. */
  function DoCrc(tab: Tables, crc: Word, x: Byte): (r: Word) {
    Xor(tab(0, Xor(crc[..8], x)), crc[8..] + Zeros(8))
  }

  /** `DO_CRC4` with k == 0 and `DO_CRC8` with k == 4. */
  function DoCrc4(tab: Tables, q: Word, k: nat): (r: Word) {
    Xor(Xor(Xor(tab(k + 3, q[..8]), tab(k + 2, q[8..16])), tab(k + 1, q[16..24])), tab(k, q[24..]))
  }

  /** One round of the main loop, on the words w1 and w2. */
  function Slice(tab: Tables, crc: Word, w1: Word, w2: Word): (r: Word) {
    Xor(DoCrc4(tab, Xor(crc, w1), 4), DoCrc4(tab, w2, 0))
  }

  lemma DoCrcIsBitwise(tab: Tables, crc: Word, x: Byte)
    requires AreTables(tab)
    ensures DoCrc(tab, crc, x) == Bitwise(crc, [x])
  {
    var b: Byte := Xor(crc[..8], x);
    var high: Word := Zeros(8) + crc[8..];
    assert XorByte(crc, x) == Xor(b + Zeros(24), high);
    ShiftsLinear(8, b + Zeros(24), high);
    EntryIsShifted(0, b);
    ShiftsOut(8, crc[8..]);
    assert Bitwise(crc, [x]) == Shifts(8, XorByte(crc, x));
  }

  /** Byte j of q in its place, the other bits zero. */
  function Lane(q: Word, j: nat): (r: Word)
    requires j < 4
  {
    Zeros(8 * j) + q[8 * j..8 * j + 8] + Zeros(24 - 8 * j)
  }

  lemma LaneIsEntry(q: Word, j: nat, k: nat)
    requires j < 4
    ensures Shifts(32 + 8 * k, Lane(q, j)) == Entry(k + 3 - j, q[8 * j..8 * j + 8])
  {
    var b: Byte := q[8 * j..8 * j + 8];
    ShiftsAdd(8 * j, 8 * (k + 4 - j), Lane(q, j));
    ShiftsOutPadded(8 * j, 24 - 8 * j, b);
    EntryIsShifted(k + 3 - j, b);
  }

  lemma WordIsLanes(q: Word)
    ensures q == Xor(Xor(Xor(Lane(q, 0), Lane(q, 1)), Lane(q, 2)), Lane(q, 3))
  {
  }

  lemma ShiftsLinear4(n: nat, x0: Word, x1: Word, x2: Word, x3: Word)
    ensures Shifts(n, Xor(Xor(Xor(x0, x1), x2), x3))
         == Xor(Xor(Xor(Shifts(n, x0), Shifts(n, x1)), Shifts(n, x2)), Shifts(n, x3))
  {
    ShiftsLinear(n, Xor(Xor(x0, x1), x2), x3);
    ShiftsLinear(n, Xor(x0, x1), x2);
    ShiftsLinear(n, x0, x1);
  }

  lemma DoCrc4IsShifts(tab: Tables, q: Word, k: nat)
    requires AreTables(tab)
    requires k <= 4
    ensures DoCrc4(tab, q, k) == Shifts(32 + 8 * k, q)
  {
    LaneIsEntry(q, 0, k);
    LaneIsEntry(q, 1, k);
    LaneIsEntry(q, 2, k);
    LaneIsEntry(q, 3, k);
    assert q[0..8] == q[..8] && q[24..32] == q[24..];
    WordIsLanes(q);
    ShiftsLinear4(32 + 8 * k, Lane(q, 0), Lane(q, 1), Lane(q, 2), Lane(q, 3));
  }

  // ----- Bytes taken together -----

  /** The bytes as one little-endian number. */
  function Joined(buf: seq<Byte>): (x: Bits)
    ensures |x| == 8 * |buf|
  {
    if buf == [] then [] else buf[0] + Joined(buf[1..])
  }

  /** Up to four bytes may be xored in before any shifting. */
  lemma {:induction false} BitwiseTogether(crc: Word, buf: seq<Byte>)
    requires |buf| <= 4
    ensures Bitwise(crc, buf) == Shifts(8 * |buf|, Xor(crc, Joined(buf) + Zeros(32 - 8 * |buf|)))
    decreases |buf|
  {
    if buf == [] {
      assert Xor(crc, Joined(buf) + Zeros(32)) == crc;
    } else {
      var n, rest := |buf|, buf[1..];
      var c: Word := XorByte(crc, buf[0]);
      var w: Word := Joined(rest) + Zeros(40 - 8 * n);
      var w': Word := Zeros(8) + (Joined(rest) + Zeros(32 - 8 * n));
      BitwiseTogether(Shifts(8, c), rest);
      ShiftsOut(8, Joined(rest) + Zeros(32 - 8 * n));
      assert Joined(rest) + Zeros(32 - 8 * n) + Zeros(8) == w;
      ShiftsLinear(8, c, w');
      assert Xor(c, w') == Xor(crc, Joined(buf) + Zeros(32 - 8 * n));
      ShiftsAdd(8, 8 * (n - 1), Xor(c, w'));
    }
  }

  lemma BitwiseFour(crc: Word, buf: seq<Byte>)
    requires |buf| == 4
    ensures Bitwise(crc, buf) == Shifts(32, Xor(crc, Joined(buf)))
  {
    BitwiseTogether(crc, buf);
    assert Joined(buf) + Zeros(0) == Joined(buf);
  }

  /** One round of the slicing-by-8 loop. */
  lemma SlicingStep(tab: Tables, crc: Word, buf: seq<Byte>)
    requires AreTables(tab)
    requires |buf| == 8
    ensures Slice(tab, crc, Joined(buf[..4]), Joined(buf[4..])) == Bitwise(crc, buf)
  {
    var q1: Word := Xor(crc, Joined(buf[..4]));
    var q2: Word := Joined(buf[4..]);
    assert buf == buf[..4] + buf[4..];
    BitwiseConcat(crc, buf[..4], buf[4..]);
    BitwiseFour(crc, buf[..4]);
    BitwiseFour(Shifts(32, q1), buf[4..]);
    ShiftsLinear(32, Shifts(32, q1), q2);
    ShiftsAdd(32, 32, q1);
    DoCrc4IsShifts(tab, q1, 4);
    DoCrc4IsShifts(tab, q2, 0);
  }

  // ----- crc32_body -----

  /** n bytes further. */
  lemma BitwiseNext(crc: Word, buf: seq<Byte>, p: nat, n: nat)
    requires p + n <= |buf|
    ensures Bitwise(crc, buf[..p + n]) == Bitwise(Bitwise(crc, buf[..p]), buf[p..p + n])
  {
    assert buf[..p + n] == buf[..p] + buf[p..p + n];
    BitwiseConcat(crc, buf[..p], buf[p..p + n]);
  }

  lemma ByteNext(seed: Word, buf: seq<Byte>, p: nat, tab: Tables)
    requires AreTables(tab)
    requires p < |buf|
    ensures DoCrc(tab, Bitwise(seed, buf[..p]), buf[p]) == Bitwise(seed, buf[..p + 1])
  {
    BitwiseNext(seed, buf, p, 1);
    assert buf[p..p + 1] == [buf[p]];
    DoCrcIsBitwise(tab, Bitwise(seed, buf[..p]), buf[p]);
  }

  /** One round, on the two words at p. */
  function SliceAt(tab: Tables, crc: Word, buf: seq<Byte>, p: nat): (r: Word)
    requires p + 8 <= |buf|
  {
    Slice(tab, crc, Joined(buf[p..p + 4]), Joined(buf[p + 4..p + 8]))
  }

  lemma WordsNext(seed: Word, buf: seq<Byte>, p: nat, tab: Tables)
    requires AreTables(tab)
    requires p + 8 <= |buf|
    ensures SliceAt(tab, Bitwise(seed, buf[..p]), buf, p) == Bitwise(seed, buf[..p + 8])
  {
    BitwiseNext(seed, buf, p, 8);
    SlicingStep(tab, Bitwise(seed, buf[..p]), buf[p..p + 8]);
    assert buf[p..p + 8][..4] == buf[p..p + 4] && buf[p..p + 8][4..] == buf[p + 4..p + 8];
  }

  /** The first loop: single bytes until the address is a multiple of four. */
  method Align(seed: Word, address: nat, buf: seq<Byte>, tab: Tables) returns (crc: Word, p: nat)
    requires AreTables(tab)
    ensures p <= |buf| && crc == Bitwise(seed, buf[..p])
    ensures p < |buf| ==> (address + p) % 4 == 0
  {
    crc, p := seed, 0;
    while p < |buf| && (address + p) % 4 != 0
      invariant p <= |buf| && crc == Bitwise(seed, buf[..p])
    {
      ByteNext(seed, buf, p, tab);
      crc := DoCrc(tab, crc, buf[p]);
      p := p + 1;
    }
  }

  /** The main loop: `count` times two aligned words. */
  method SliceWords(seed: Word, crc: Word, address: nat, buf: seq<Byte>, p: nat, count: nat, tab: Tables)
    returns (crc': Word)
    requires AreTables(tab)
    requires p + 8 * count <= |buf| && crc == Bitwise(seed, buf[..p])
    requires count > 0 ==> (address + p) % 4 == 0
    ensures crc' == Bitwise(seed, buf[..p + 8 * count])
  {
    crc' := crc;
    var b: nat, len: nat := p, count;
    ghost var end := p + 8 * count;
    ghost var word := (address + p) / 4;
    while len > 0
      invariant b + 8 * len == end
      invariant count > 0 ==> address + b == 4 * word  // every word read is aligned
      invariant crc' == Bitwise(seed, buf[..b])
    {
      ghost var next := Bitwise(seed, buf[..b + 8]);
      WordsNext(seed, buf, b, tab);
      crc' := SliceAt(tab, crc', buf, b);
      assert crc' == next;
      b, len, word := b + 8, len - 1, word + 2;
    }
  }

  /** The last loop: what is left over. */
  method Tail(seed: Word, crc: Word, buf: seq<Byte>, p: nat, tab: Tables) returns (crc': Word)
    requires AreTables(tab)
    requires p <= |buf| && crc == Bitwise(seed, buf[..p])
    ensures crc' == Bitwise(seed, buf)
  {
    crc' := crc;
    var b: nat := p;
    while b < |buf|
      invariant p <= b <= |buf| && crc' == Bitwise(seed, buf[..b])
    {
      ByteNext(seed, buf, b, tab);
      crc' := DoCrc(tab, crc', buf[b]);
      b := b + 1;
    }
    assert buf[..b] == buf;
  }

  /** `crc32_body`: `address` is where the buffer lies in memory, of which only the alignment matters. */
  method Crc32Body(seed: Word, address: nat, buf: seq<Byte>, tab: Tables) returns (crc: Word)
    requires AreTables(tab)
    ensures crc == Bitwise(seed, buf)
  {
    var p;
    crc, p := Align(seed, address, buf, tab);
    var count := (|buf| - p) / 8;
    crc := SliceWords(seed, crc, address, buf, p, count, tab);
    crc := Tail(seed, crc, buf, p + 8 * count, tab);
  }

  /** `ext2fs_crc32c_le` over a buffer in two pieces: chaining the calls is the same as one call. */
  method Chained(seed: Word, address: nat, a: seq<Byte>, b: seq<Byte>, tab: Tables) returns (crc: Word)
    requires AreTables(tab)
    ensures crc == Bitwise(seed, a + b)
  {
    crc := Crc32Body(seed, address, a, tab);
    crc := Crc32Body(crc, address + |a|, b, tab);
    BitwiseConcat(seed, a, b);
  }

  // ----- What a checksum is for -----

  /** The polynomial has its top bit, so no two registers are shifted to the same one. */
  lemma ShiftInjective(x: Word, y: Word)
    requires Shift(x) == Shift(y)
    ensures x == y
  {
    assert POLYNOMIAL[31];
    assert Shift(x)[31] == x[0] && Shift(y)[31] == y[0];
    forall i | 0 <= i < 32 ensures x[i] == y[i] {
      if i > 0 {
        assert Shift(x)[i - 1] == Shift(y)[i - 1];
      }
    }
  }

  lemma {:induction false} ShiftsInjective(n: nat, x: Word, y: Word)
    requires Shifts(n, x) == Shifts(n, y)
    ensures x == y
  {
    if n > 0 {
      ShiftsInjective(n - 1, Shift(x), Shift(y));
      ShiftInjective(x, y);
    }
  }

  /** The register never forgets: over the same bytes, different registers stay different. */
  lemma {:induction false} BitwiseInjective(x: Word, y: Word, buf: seq<Byte>)
    requires Bitwise(x, buf) == Bitwise(y, buf)
    ensures x == y
    decreases |buf|
  {
    if buf != [] {
      BitwiseInjective(Shifts(8, XorByte(x, buf[0])), Shifts(8, XorByte(y, buf[0])), buf[1..]);
      ShiftsInjective(8, XorByte(x, buf[0]), XorByte(y, buf[0]));
      XorCancel(x, y, buf[0] + Zeros(24));
    }
  }

  lemma XorCancel(x: Bits, y: Bits, z: Bits)
    requires |x| == |y| == |z|
    requires Xor(x, z) == Xor(y, z)
    ensures x == y
  {
    forall i | 0 <= i < |x| ensures x[i] == y[i] {
      assert Xor(x, z)[i] == Xor(y, z)[i];
    }
  }

  lemma {:induction false} JoinedInjective(a: seq<Byte>, b: seq<Byte>)
    requires |a| == |b| && Joined(a) == Joined(b)
    ensures a == b
  {
    if a != [] {
      assert Joined(a)[..8] == a[0] && Joined(b)[..8] == b[0];
      assert Joined(a)[8..] == Joined(a[1..]) && Joined(b)[8..] == Joined(b[1..]);
      JoinedInjective(a[1..], b[1..]);
    }
  }

  lemma FewBytesInjective(crc: Word, a: seq<Byte>, b: seq<Byte>)
    requires |a| == |b| <= 4
    requires Bitwise(crc, a) == Bitwise(crc, b)
    ensures a == b
  {
    BitwiseTogether(crc, a);
    BitwiseTogether(crc, b);
    var pad := Zeros(32 - 8 * |a|);
    var x: Word, y: Word := Joined(a) + pad, Joined(b) + pad;
    ShiftsInjective(8 * |a|, Xor(crc, x), Xor(crc, y));
    assert Xor(x, crc) == Xor(crc, x) && Xor(y, crc) == Xor(crc, y);
    XorCancel(x, y, crc);
    assert x[..8 * |a|] == Joined(a) && y[..8 * |a|] == Joined(b);
    JoinedInjective(a, b);
  }

  /** Damage confined to four consecutive bytes always changes the checksum, whatever the seed. */
  lemma BurstDetected(seed: Word, before: seq<Byte>, a: seq<Byte>, b: seq<Byte>, after: seq<Byte>)
    requires |a| == |b| <= 4 && a != b
    ensures Bitwise(seed, before + a + after) != Bitwise(seed, before + b + after)
  {
    var crc := Bitwise(seed, before);
    BitwiseConcat(seed, before + a, after);
    BitwiseConcat(seed, before, a);
    BitwiseConcat(seed, before + b, after);
    BitwiseConcat(seed, before, b);
    if Bitwise(seed, before + a + after) == Bitwise(seed, before + b + after) {
      BitwiseInjective(Bitwise(crc, a), Bitwise(crc, b), after);
      FewBytesInjective(crc, a, b);
    }
  }

  // ----- Division of polynomials -----

  /** The exponents of the polynomial, from section 12.1 of RFC 3720. */
  const EXPONENTS: set<int> := {32, 28, 27, 26, 25, 23, 22, 20, 19, 18, 14, 13, 11, 10, 9, 8, 6, 0}

  /** Its coefficients, the highest first. */
  function Divisor(): (p: Bits)
    ensures |p| == 33
  {
    seq(33, i => 32 - i in EXPONENTS)
  }

  lemma DivisorIs()
    ensures Divisor() == [true] + POLYNOMIAL
  {
    var p := Divisor();
    assert p[..1] == [true] && p[1..17] == POLYNOMIAL[..16] && p[17..] == POLYNOMIAL[16..];
    assert p == p[..1] + p[1..17] + p[17..];
  }

  /** The divisor, or nothing, at the head of n + 33 coefficients. */
  function Head(q: bool, n: nat): (p: Bits)
    ensures |p| == n + 33
  {
    if q then Divisor() + Zeros(n) else Zeros(n + 33)
  }

  /** The product of q and the divisor, both with the highest coefficient first. */
  function Product(q: Bits): (p: Bits)
    ensures |p| == |q| + 32
  {
    if q == [] then Zeros(32) else Xor(Head(q[0], |q| - 1), [false] + Product(q[1..]))
  }

  /** v is q times the divisor plus the remainder r. */
  ghost predicate Divides(v: Bits, q: Bits, r: Word) {
    |v| == |q| + 32 && v == Xor(Product(q), Zeros(|q|) + r)
  }

  /** One step of the division: the highest coefficient goes. */
  function Step(v: Bits): (w: Bits)
    requires |v| > 32
    ensures |w| == |v| - 1
  {
    Xor(v, Head(v[0], |v| - 33))[1..]
  }

  function Remainder(v: Bits): (r: Word)
    requires |v| >= 32
    decreases |v|
  {
    if |v| == 32 then v else Remainder(Step(v))
  }

  /** What is divided is a multiple of the divisor and the remainder. */
  lemma {:induction false} Divided(v: Bits) returns (q: Bits)
    requires |v| >= 32
    ensures Divides(v, q, Remainder(v))
    decreases |v|
  {
    q := [];
    if |v| > 32 {
      var q' := Divided(Step(v));
      q := [v[0]] + q';
      assert q[1..] == q';
      StepBack(v, q', Remainder(v));
    } else {
      assert v == Xor(Zeros(32), Zeros(0) + v);
    }
  }

  lemma StepBack(v: Bits, q: Bits, r: Word)
    requires |v| > 32 && Divides(Step(v), q, r)
    ensures Divides(v, [v[0]] + q, r)
  {
    var h, p, z, q' := Head(v[0], |v| - 33), Product(q), Zeros(|q|) + r, [v[0]] + q;
    DivisorIs();
    assert q'[1..] == q && h[0] == v[0];
    assert Zeros(|q'|) + r == [false] + z;
    forall i | 0 <= i < |v| ensures v[i] == Xor(Xor(h, [false] + p), [false] + z)[i] {
      if i > 0 {
        assert Step(v)[i - 1] == (v[i] != h[i]);
      }
    }
  }

  /** There is no other quotient, and no other remainder. */
  lemma {:induction false} RemainderUnique(v: Bits, q: Bits, r: Word)
    requires |v| >= 32 && Divides(v, q, r)
    ensures r == Remainder(v)
    decreases |v|
  {
    if q == [] {
      assert Xor(Zeros(32), Zeros(0) + r) == r;
    } else {
      StepOn(v, q, r);
      RemainderUnique(Step(v), q[1..], r);
    }
  }

  lemma StepOn(v: Bits, q: Bits, r: Word)
    requires q != [] && Divides(v, q, r)
    ensures Divides(Step(v), q[1..], r)
  {
    var h, p, z := Head(q[0], |q| - 1), Product(q[1..]), Zeros(|q| - 1) + r;
    DivisorIs();
    assert Zeros(|q|) + r == [false] + z;
    assert v[0] == q[0];
    forall i | 0 <= i < |v| - 1 ensures Step(v)[i] == Xor(p, z)[i] {
      assert v[i + 1] == ((h[i + 1] != p[i]) != z[i]);
    }
  }

  // ----- The register holds the remainder -----

  /** The message with 32 zeros behind it, the seed added to its head. */
  function Augmented(seed: Word, buf: seq<Byte>): (v: Bits)
    ensures |v| == 8 * |buf| + 32
  {
    Xor(seed + Zeros(8 * |buf|), Joined(buf) + Zeros(32))
  }

  /** n steps of the division, the register at the head, where the message has been added in already. */
  lemma {:induction false} ShiftsDivide(n: nat, x: Word, m: nat, z: Bits)
    requires n <= m && |z| == m - n + 32
    ensures Remainder(Xor(x + Zeros(m), Zeros(n) + z)) == Remainder(Xor(Shifts(n, x) + Zeros(m - n), z))
  {
    if n == 0 {
      assert Zeros(0) + z == z;
    } else {
      ShiftDivides(x, m, Zeros(n - 1) + z);
      assert [false] + (Zeros(n - 1) + z) == Zeros(n) + z;
      ShiftsDivide(n - 1, Shift(x), m - 1, z);
    }
  }

  lemma ShiftDivides(x: Word, m: nat, z: Bits)
    requires m > 0 && |z| == m + 31
    ensures Step(Xor(x + Zeros(m), [false] + z)) == Xor(Shift(x) + Zeros(m - 1), z)
  {
    var v, h := Xor(x + Zeros(m), [false] + z), Head(x[0], m - 1);
    DivisorIs();
    assert v[0] == x[0];
    forall i | 0 <= i < m + 31 ensures Step(v)[i] == Xor(Shift(x) + Zeros(m - 1), z)[i] {
      assert Step(v)[i] == (v[i + 1] != h[i + 1]);
    }
  }

  lemma {:induction false} BitwiseDivides(seed: Word, buf: seq<Byte>)
    ensures Bitwise(seed, buf) == Remainder(Augmented(seed, buf))
    decreases |buf|
  {
    if buf == [] {
      assert Augmented(seed, buf) == seed;
    } else {
      var c, z := XorByte(seed, buf[0]), Joined(buf[1..]) + Zeros(32);
      assert Augmented(seed, buf) == Xor(c + Zeros(8 * |buf|), Zeros(8) + z);
      ShiftsDivide(8, c, 8 * |buf|, z);
      BitwiseDivides(Shifts(8, c), buf[1..]);
    }
  }

  /**
   The checksum is the one word that is left when the message, with the seed added to its head and 32 zeros
   behind it, is divided by the polynomial of those exponents.
   */
  lemma ChecksumIsRemainder(seed: Word, buf: seq<Byte>, r: Word)
    ensures r == Bitwise(seed, buf) <==> exists q :: Divides(Augmented(seed, buf), q, r)
  {
    var v := Augmented(seed, buf);
    BitwiseDivides(seed, buf);
    var q := Divided(v);
    forall q' | Divides(v, q', r) ensures r == Remainder(v) {
      RemainderUnique(v, q', r);
    }
  }
}
