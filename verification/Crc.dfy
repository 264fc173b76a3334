/** The table-driven checksums: CRC-32 (src/compress/crc32.c, section 8 of RFC 1952) and CRC-32C
    (src/ext4/csum.c). A 32-bit register is the sequence of its bits, least significant first.
    Both checksums are bit-reflected: bit 0 of the register is the highest coefficient. */
module Crc {
  import opened Bits

  type Word = w: seq<bool> | |w| == 32 witness Zeros(32)

  function Zeros(n: nat): (r: seq<bool>)
    ensures |r| == n
    ensures forall i :: 0 <= i < n ==> !r[i]
  {
    seq(n, _ => false)
  }

  function Xor(a: Word, b: Word): (r: Word)
    ensures forall i :: 0 <= i < 32 ==> r[i] == (a[i] != b[i])
  {
    seq(32, i requires 0 <= i < 32 => a[i] != b[i])
  }

  function Not(a: Word): (r: Word)
    ensures forall i :: 0 <= i < 32 ==> r[i] == !a[i]
  {
    seq(32, i requires 0 <= i < 32 => !a[i])
  }

  /** `a >> n`. */
  function Shr(a: Word, n: nat): (r: Word)
    requires n <= 32
  {
    a[n..] + Zeros(n)
  }

  const CRC32_POLY: Word := LsbFirst(0xEDB88320, 32)
  const CRC32C_POLY: Word := LsbFirst(0x82F63B78, 32)

  const CRC32_TERMS: set<nat> := {0, 1, 2, 4, 5, 7, 8, 10, 11, 12, 16, 22, 23, 26}
  const CRC32C_TERMS: set<nat> := {0, 6, 8, 9, 10, 11, 13, 14, 18, 19, 20, 22, 23, 25, 26, 27, 28}

  function Bit(v: nat, i: nat): bool {
    if i == 0 then v % 2 == 1 else Bit(v / 2, i - 1)
  }

  lemma {:induction false} LsbBit(v: nat, n: nat, i: nat)
    requires i < n
    ensures LsbFirst(v, n)[i] == Bit(v, i)
    decreases n
  {
    if i == 0 {
    } else {
      LsbBit(v / 2, n - 1, i - 1);
    }
  }

  /** The number with these hexadecimal digits, the lowest first. */
  function Hex(ds: seq<nat>, n: nat): nat
    requires n <= |ds|
  {
    if n == 0 then 0 else ds[|ds| - n] + 16 * Hex(ds, n - 1)
  }

  lemma HexOfEight(ds: seq<nat>)
    requires |ds| == 8
    ensures Hex(ds, 8) == ds[0] + 16 * (ds[1] + 16 * (ds[2] + 16 * (ds[3] + 16 * (ds[4] + 16 * (ds[5] + 16 * (
      ds[6] + 16 * ds[7]))))))
  {
    assert Hex(ds, 1) == ds[7];
    assert Hex(ds, 3) == ds[5] + 16 * Hex(ds, 2) && Hex(ds, 2) == ds[6] + 16 * ds[7];
    assert Hex(ds, 5) == ds[3] + 16 * Hex(ds, 4) && Hex(ds, 4) == ds[4] + 16 * Hex(ds, 3);
    assert Hex(ds, 7) == ds[1] + 16 * Hex(ds, 6) && Hex(ds, 6) == ds[2] + 16 * Hex(ds, 5);
  }

  /** Each digit spells four bits. */
  lemma {:induction false} HexBit(ds: seq<nat>, n: nat, i: nat)
    requires n <= |ds| && i < 4 * n && forall k :: 0 <= k < |ds| ==> ds[k] < 16
    ensures Bit(Hex(ds, n), i) == Bit(ds[|ds| - n + i / 4], i % 4)
  {
    var v, d, r := Hex(ds, n), ds[|ds| - n], Hex(ds, n - 1);
    assert Pow2(4) == 16;
    if i < 4 {
      LowBit(v, d, r, 4, i);
    } else {
      HighBit(v, d, r, 4, i - 4);
      HexBit(ds, n - 1, i - 4);
    }
  }

  lemma {:induction false} LowBit(v: nat, d: nat, r: nat, n: nat, i: nat)
    requires i < n && v == d + Pow2(n) * r
    ensures Bit(v, i) == Bit(d, i)
    decreases n
  {
    Half(v, d, r, n, n - 1);
    if i == 0 {
    } else {
      LowBit(v / 2, d / 2, r, n - 1, i - 1);
    }
  }

  lemma {:induction false} HighBit(v: nat, d: nat, r: nat, n: nat, i: nat)
    requires d < Pow2(n) && v == d + Pow2(n) * r
    ensures Bit(v, n + i) == Bit(r, i)
    decreases n
  {
    if n == 0 {
    } else {
      Half(v, d, r, n, n - 1);
      HighBit(v / 2, d / 2, r, n - 1, i);
    }
  }

  lemma Half(v: nat, d: nat, r: nat, n: nat, m: nat)
    requires n == m + 1 && v == d + Pow2(n) * r
    ensures v / 2 == d / 2 + Pow2(m) * r && v % 2 == d % 2
  {
    var x := Pow2(m) * r;
    assert Pow2(n) * r == 2 * Pow2(m) * r == 2 * x;
  }

  lemma EightDigits(ds: seq<nat>, v: nat, i: nat)
    requires |ds| == 8 && i < 32 && forall k :: 0 <= k < 8 ==> ds[k] < 16
    requires v == ds[0] + 16 * (ds[1] + 16 * (ds[2] + 16 * (ds[3] + 16 * (ds[4] + 16 * (ds[5] + 16 * (
      ds[6] + 16 * ds[7]))))))
    ensures Bit(v, i) == Bit(ds[i / 4], i % 4)
  {
    HexOfEight(ds);
    HexBit(ds, 8, i);
  }

  lemma Crc32Bit(i: nat)
    requires i < 32
    ensures Bit(0xEDB88320, i) <==> 31 - i in CRC32_TERMS
  {
    EightDigits([0x0, 0x2, 0x3, 0x8, 0x8, 0xB, 0xD, 0xE], 0xEDB88320, i);
    match i
    case 0 => case 1 => case 2 => case 3 => case 4 => case 5 => case 6 => case 7 =>
    case 8 => case 9 => case 10 => case 11 => case 12 => case 13 => case 14 => case 15 =>
    case 16 => case 17 => case 18 => case 19 => case 20 => case 21 => case 22 => case 23 =>
    case 24 => case 25 => case 26 => case 27 => case 28 => case 29 => case 30 => case 31 =>
  }

  lemma Crc32cBit(i: nat)
    requires i < 32
    ensures Bit(0x82F63B78, i) <==> 31 - i in CRC32C_TERMS
  {
    EightDigits([0x8, 0x7, 0xB, 0x3, 0x6, 0xF, 0x2, 0x8], 0x82F63B78, i);
    match i
    case 0 => case 1 => case 2 => case 3 => case 4 => case 5 => case 6 => case 7 =>
    case 8 => case 9 => case 10 => case 11 => case 12 => case 13 => case 14 => case 15 =>
    case 16 => case 17 => case 18 => case 19 => case 20 => case 21 => case 22 => case 23 =>
    case 24 => case 25 => case 26 => case 27 => case 28 => case 29 => case 30 => case 31 =>
  }

  /** The exponents below 32 of the polynomial of CRC-32 (section 8 of RFC 1952)... */
  lemma Crc32Terms(k: nat)
    requires k < 32
    ensures CRC32_POLY[31 - k] <==> k in CRC32_TERMS
  {
    WordBit(CRC32_POLY, 0xEDB88320, 31 - k);
    Crc32Bit(31 - k);
  }

  /** ... and of that of CRC-32C. */
  lemma Crc32cTerms(k: nat)
    requires k < 32
    ensures CRC32C_POLY[31 - k] <==> k in CRC32C_TERMS
  {
    WordBit(CRC32C_POLY, 0x82F63B78, 31 - k);
    Crc32cBit(31 - k);
  }

  lemma WordBit(w: Word, v: nat, i: nat)
    requires w == LsbFirst(v, 32) && i < 32
    ensures w[i] == Bit(v, i)
  {
    LsbBit(v, 32, i);
  }

  // ---------------------------------------------------------- the register

  /** Shifts one coefficient out and, when it is set, subtracts the divisor under it. */
  function Step(poly: Word, c: Word): Word {
    if c[0] then Xor(poly, Shr(c, 1)) else Shr(c, 1)
  }

  function Steps(poly: Word, c: Word, n: nat): Word
    decreases poly, n
  {
    if n == 0 then c else Steps(poly, Step(poly, c), n - 1)
  }

  /** A byte in the low eight bits. */
  function ByteWord(b: Byte): Word {
    LsbFirst(b, 8) + Zeros(24)
  }

  /** The register after the bytes: each is xored into the low end and divided out. */
  function Register(poly: Word, r: Word, data: seq<Byte>): Word
    decreases data
  {
    if data == [] then r else Register(poly, Steps(poly, Xor(r, ByteWord(data[0])), 8), data[1..])
  }

  /** The checksum continued from crc: the register is complemented at both ends. */
  function Update(poly: Word, crc: Word, data: seq<Byte>): Word {
    Not(Register(poly, Not(crc), data))
  }

  // ----------------------------------------------------- polynomial division

  /** w added to the 32 highest coefficients of s. */
  function XorHead(s: seq<bool>, w: Word): (r: seq<bool>)
    requires |s| >= 32
    ensures |r| == |s|
  {
    Xor(s[..32], w) + s[32..]
  }

  /** Remainder of the polynomial s (highest coefficient first) divided by x^32 + poly:
      schoolbook long division. */
  function Remainder(s: seq<bool>, poly: Word): Word
    requires |s| >= 32
    decreases |s|
  {
    if |s| == 32 then s
    else if s[0] then Remainder(XorHead(s[1..], poly), poly)
    else Remainder(s[1..], poly)
  }

  /** The register fed one message bit. */
  function FeedBit(poly: Word, r: Word, m: bool): Word {
    Step(poly, r[0 := r[0] != m])
  }

  function Feed(poly: Word, r: Word, ms: seq<bool>): Word
    decreases |ms|
  {
    if ms == [] then r else Feed(poly, FeedBit(poly, r, ms[0]), ms[1..])
  }

  lemma XorHeadAt(s: seq<bool>, w: Word, i: nat)
    requires |s| >= 32 && i < |s|
    ensures XorHead(s, w)[i] == if i < 32 then s[i] != w[i] else s[i]
  {
  }

  lemma FeedBitAt(poly: Word, r: Word, m: bool, i: nat)
    requires i < 32
    ensures FeedBit(poly, r, m)[i] == ((i < 31 && r[i + 1]) != ((r[0] != m) && poly[i]))
  {
    var c := r[0 := r[0] != m];
    assert Shr(c, 1)[i] == (i < 31 && r[i + 1]);
  }

  /** One bit fed to the register is one step of long division. */
  lemma FeedIsDivisionStep(poly: Word, r: Word, m: bool, rest: seq<bool>)
    requires |rest| >= 32
    ensures var s := XorHead([m] + rest, r);
      XorHead(rest, FeedBit(poly, r, m)) == if s[0] then XorHead(s[1..], poly) else s[1..]
  {
    var whole := [m] + rest;
    var s := XorHead(whole, r);
    var got := XorHead(rest, FeedBit(poly, r, m));
    var want := if s[0] then XorHead(s[1..], poly) else s[1..];
    XorHeadAt(whole, r, 0);
    forall i | 0 <= i < |rest| ensures got[i] == want[i] {
      XorHeadAt(rest, FeedBit(poly, r, m), i);
      XorHeadAt(whole, r, i + 1);
      XorHeadAt(s[1..], poly, i);
      if i < 32 { FeedBitAt(poly, r, m, i); }
    }
  }

  /** The register holds the remainder of the message, its first 32 coefficients changed by the
      initial register, times x^32. */
  lemma {:induction false} FeedIsRemainder(poly: Word, r: Word, ms: seq<bool>)
    ensures Feed(poly, r, ms) == Remainder(XorHead(ms + Zeros(32), r), poly)
    decreases |ms|
  {
    if ms == [] {
      assert XorHead([] + Zeros(32), r) == r;
    } else {
      var rest := ms[1..] + Zeros(32);
      assert ms + Zeros(32) == [ms[0]] + rest;
      FeedIsDivisionStep(poly, r, ms[0], rest);
      FeedIsRemainder(poly, FeedBit(poly, r, ms[0]), ms[1..]);
    }
  }

  lemma {:induction false} FeedSplit(poly: Word, r: Word, a: seq<bool>, b: seq<bool>)
    ensures Feed(poly, r, a + b) == Feed(poly, Feed(poly, r, a), b)
    decreases |a|
  {
    if a == [] {
      assert a + b == b;
    } else {
      FeedSplit(poly, FeedBit(poly, r, a[0]), a[1..], b);
      assert (a + b)[1..] == a[1..] + b;
    }
  }

  // ----------------------------------------------------------- eight at once

  lemma StepLinear(poly: Word, x: Word, y: Word)
    ensures Step(poly, Xor(x, y)) == Xor(Step(poly, x), Step(poly, y))
  {
  }

  lemma {:induction false} StepsLinear(poly: Word, x: Word, y: Word, n: nat)
    ensures Steps(poly, Xor(x, y), n) == Xor(Steps(poly, x, n), Steps(poly, y, n))
    decreases n
  {
    if n == 0 {
    } else {
      StepLinear(poly, x, y);
      StepsLinear(poly, Step(poly, x), Step(poly, y), n - 1);
    }
  }

  /** While the low bits are clear, steps are shifts. */
  lemma {:induction false} StepsShift(poly: Word, w: seq<bool>, k: nat, n: nat)
    requires |w| == 32 - n && n <= k <= 32
    ensures Steps(poly, Zeros(n) + w, n) == w + Zeros(n)
    decreases n
  {
    if n > 0 {
      assert Shr(Zeros(n) + w, 1) == Zeros(n - 1) + (w + [false]);
      StepsShift(poly, w + [false], k, n - 1);
      assert w + [false] + Zeros(n - 1) == w + Zeros(n);
    } else {
      assert Zeros(n) + w == w == w + Zeros(n);
    }
  }

  /** A step past a bit that was xored in with others feeds the bit and shifts the others. */
  lemma FirstBitApart(poly: Word, r: Word, m: bool, rest: seq<bool>, whole: Word, next: Word)
    requires |rest| == 31 && whole == [m] + rest && next == rest + [false]
    ensures Step(poly, Xor(r, whole)) == Xor(FeedBit(poly, r, m), next)
  {
    var first, later: Word := r[0 := r[0] != m], [false] + rest;
    assert Xor(r, whole) == Xor(first, later);
    StepLinear(poly, first, later);
    ShiftOut(poly, later, next);
  }

  lemma ShiftOut(poly: Word, later: Word, next: Word)
    requires !later[0] && next == later[1..] + [false]
    ensures Step(poly, later) == next
  {
  }

  lemma Padded(ms: seq<bool>, n: nat, rest: seq<bool>)
    requires 0 < n == |ms| <= 32 && rest == ms[1..] + Zeros(32 - n)
    ensures ms + Zeros(32 - n) == [ms[0]] + rest && ms[1..] + Zeros(32 - (n - 1)) == rest + [false]
  {
  }

  lemma XorZero(r: Word, w: Word)
    requires w == Zeros(32)
    ensures Xor(r, w) == r
  {
  }

  /** Xoring bits in together and stepping past them is feeding them one at a time. */
  lemma {:induction false} StepsAreFeeds(poly: Word, r: Word, ms: seq<bool>, n: nat)
    requires n == |ms| <= 32
    ensures Steps(poly, Xor(r, ms + Zeros(32 - n)), n) == Feed(poly, r, ms)
    decreases n
  {
    var whole: Word := ms + Zeros(32 - n);
    if n == 0 {
      XorZero(r, whole);
    } else {
      var rest := ms[1..] + Zeros(32 - n);
      Padded(ms, n, rest);
      FirstBitApart(poly, r, ms[0], rest, whole, rest + [false]);
      StepsAreFeeds(poly, FeedBit(poly, r, ms[0]), ms[1..], n - 1);
      OneStep(poly, Xor(r, whole), n);
    }
  }

  lemma OneStep(poly: Word, c: Word, n: nat)
    requires n > 0
    ensures Steps(poly, c, n) == Steps(poly, Step(poly, c), n - 1)
  {
  }

  lemma {:induction false} RegisterIsFeed(poly: Word, r: Word, data: seq<Byte>)
    ensures Register(poly, r, data) == Feed(poly, r, Stream(data))
    decreases |data|
  {
    if data == [] {
    } else {
      var bits, rest := LsbFirst(data[0], 8), data[1..];
      ByteIsFeed(poly, r, data[0], bits);
      FeedSplit(poly, r, bits, Stream(rest));
      RegisterIsFeed(poly, Feed(poly, r, bits), rest);
    }
  }

  lemma ByteIsFeed(poly: Word, r: Word, b: Byte, bits: seq<bool>)
    requires bits == LsbFirst(b, 8)
    ensures Steps(poly, Xor(r, ByteWord(b)), 8) == Feed(poly, r, bits)
  {
    StepsAreFeeds(poly, r, bits, 8);
  }

  /** Looking up the low byte and shifting the rest is eight steps. */
  lemma ByteAtOnce(poly: Word, x: Word)
    ensures Steps(poly, x, 8) == Xor(Steps(poly, x[..8] + Zeros(24), 8), Shr(x, 8))
  {
    var low, high: Word := x[..8] + Zeros(24), Zeros(8) + x[8..];
    assert x == Xor(low, high);
    StepsLinear(poly, low, high, 8);
    StepsShift(poly, x[8..], 8, 8);
  }

  // ------------------------------------------------------------ main results

  /** The checksum of a byte string, from its definition: complement the first 32 bits of the
      message, multiply by x^32, divide by the polynomial, complement the remainder. */
  lemma UpdateIsRemainder(poly: Word, crc: Word, data: seq<Byte>)
    ensures Update(poly, crc, data) == Not(Remainder(XorHead(Stream(data) + Zeros(32), Not(crc)), poly))
  {
    RegisterIsFeed(poly, Not(crc), data);
    FeedIsRemainder(poly, Not(crc), Stream(data));
  }

  lemma {:induction false} RegisterSplit(poly: Word, r: Word, a: seq<Byte>, b: seq<Byte>)
    ensures Register(poly, r, a + b) == Register(poly, Register(poly, r, a), b)
    decreases |a|
  {
    if a == [] {
      assert a + b == b;
    } else {
      var next := Steps(poly, Xor(r, ByteWord(a[0])), 8);
      assert (a + b)[1..] == a[1..] + b;
      RegisterSplit(poly, next, a[1..], b);
    }
  }

  /** Checksumming in pieces is checksumming the concatenation. */
  lemma UpdateSplit(poly: Word, crc: Word, a: seq<Byte>, b: seq<Byte>)
    ensures Update(poly, crc, a + b) == Update(poly, Update(poly, crc, a), b)
  {
    RegisterSplit(poly, Not(crc), a, b);
    assert Not(Update(poly, crc, a)) == Register(poly, Not(crc), a);
  }

  /** The e2fsprogs convention used for all ext4 checksums: no complement at either end. */
  function E2fs(crc: Word, data: seq<Byte>): Word {
    Not(Update(CRC32C_POLY, Not(crc), data))
  }

  /** It is the remainder of the message with the seed added to its first 32 bits. */
  lemma E2fsIsRemainder(seed: Word, data: seq<Byte>)
    ensures E2fs(seed, data) == Remainder(XorHead(Stream(data) + Zeros(32), seed), CRC32C_POLY)
  {
    assert Not(Not(seed)) == seed;
    assert forall w: Word :: Not(Not(w)) == w;
    RegisterIsFeed(CRC32C_POLY, seed, data);
    FeedIsRemainder(CRC32C_POLY, seed, Stream(data));
  }

  /** An ext4 checksum built up over three pieces is the remainder of their concatenation. */
  lemma E2fsPieces(seed: Word, a: seq<Byte>, b: seq<Byte>, c: seq<Byte>)
    ensures E2fs(E2fs(E2fs(seed, a), b), c)
         == Remainder(XorHead(Stream(a + b + c) + Zeros(32), seed), CRC32C_POLY)
  {
    assert forall w: Word :: Not(Not(w)) == w;
    RegisterSplit(CRC32C_POLY, seed, a, b);
    RegisterSplit(CRC32C_POLY, seed, a + b, c);
    E2fsIsRemainder(seed, a + b + c);
  }

  // --------------------------------------------------------------- the table

  lemma {:induction false} LsbOfSmall(v: nat, n: nat, m: nat)
    requires v < Pow2(n) && n <= m
    ensures LsbFirst(v, m) == LsbFirst(v, n) + Zeros(m - n)
    decreases m
  {
    if n > 0 {
      LsbOfSmall(v / 2, n - 1, m - 1);
    } else if m > 0 {
      LsbOfSmall(0, 0, m - 1);
      assert [false] + Zeros(m - 1) == Zeros(m);
    }
  }

  class Table {
    const poly: Word
    const tab: array<Word>
    var ready: bool

    ghost predicate Valid()
      reads this, tab
    {
      && tab.Length == 256
      && (ready ==> forall i: nat :: i < 256 ==> tab[i] == Steps(poly, LsbFirst(i, 32), 8))
    }

    constructor (poly: Word)
      ensures Valid() && fresh(tab) && this.poly == poly
    {
      this.poly := poly;
      tab := new Word[256](_ => Zeros(32));
      ready := false;
    }

    /** Builds the table the first time it is called. */
    method Init()
      requires Valid()
      modifies this, tab
      ensures Valid() && ready
    {
      if ready {
        return;
      }
      Build(8);
      ready := true;
    }

    /** The loop over the table, for n steps of division. */
    method Build(n: nat)
      requires tab.Length == 256
      modifies tab
      ensures forall i: nat :: i < 256 ==> tab[i] == Steps(poly, LsbFirst(i, 32), n)
    {
      for i := 0 to 256
        invariant forall k: nat :: k < i ==> tab[k] == Steps(poly, LsbFirst(k, 32), n)
      {
        var c := Entry(LsbFirst(i, 32), n);
        tab[i] := c;
      }
    }

    /** The inner loop: n steps of division. */
    method Entry(w: Word, n: nat) returns (c: Word)
      ensures c == Steps(poly, w, n)
    {
      c := w;
      for j := 0 to n
        invariant Steps(poly, w, n) == Steps(poly, c, n - j)
      {
        c := Step(poly, c);
      }
    }

    method UpdateCrc(start: Word, data: seq<Byte>) returns (crc: Word)
      requires Valid() && ready
      ensures crc == Update(poly, start, data)
    {
      crc := Not(start);
      for i := 0 to |data|
        invariant Register(poly, crc, data[i..]) == Register(poly, Not(start), data)
      {
        var x := Xor(crc, ByteWord(data[i]));
        var k := Value(x, 0, 8);
        Lookup(x, k, 8);
        assert Shr(x, 8) == Shr(crc, 8);
        assert data[i..][1..] == data[i + 1..];
        crc := Xor(tab[k], Shr(crc, 8));
      }
      crc := Not(crc);
    }

    lemma Lookup(x: Word, k: nat, n: nat)
      requires Valid() && ready && n == 8 && k == Value(x, 0, n)
      ensures k < 256 && Steps(poly, x, n) == Xor(tab[k], Shr(x, n))
    {
      ValueBound(x, 0, n);
      Pow2Eight(n);
      LsbOfValue(x, 0, n);
      LsbOfSmall(k, n, 32);
      ByteAtOnce(poly, x);
    }
  }
}
