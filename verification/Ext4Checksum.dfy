/** The checksums that inodes, group descriptors and directory blocks carry (src/ext4/util.c). */
module Ext4Checksum {
  import opened Bits
  import opened Crc

  /** Byte k of a word, as wr16 and wr32 store its halves. */
  function ByteOf(w: Word, k: nat): Byte
    requires k < 4
  {
    ValueBound(w, 8 * k, 8);
    Value(w, 8 * k, 8)
  }

  lemma E2fsSplit(seed: Word, a: seq<Byte>, b: seq<Byte>)
    ensures E2fs(seed, a + b) == E2fs(E2fs(seed, a), b)
  {
    UpdateSplit(CRC32C_POLY, Not(seed), a, b);
    NotTwice(Update(CRC32C_POLY, Not(seed), a));
  }

  lemma NotTwice(w: Word)
    ensures Not(Not(w)) == w
  {
  }

  /** crc32c_e2fs: the complements at both ends undone. */
  method Crc32cE2fs(tab: Table, crc: Word, data: seq<Byte>) returns (r: Word)
    requires tab.Valid() && tab.ready && tab.poly == CRC32C_POLY
    ensures r == E2fs(crc, data)
  {
    r := tab.UpdateCrc(Not(crc), data);
    r := Not(r);
  }

  // ------------------------------------------------------------------ inodes

  const INODE_SIZE := 256

  /** The inode with its two checksum fields zero. */
  function InodeCleared(b: seq<Byte>): seq<Byte>
    requires |b| == INODE_SIZE
  {
    b[0x7C := 0][0x7D := 0][0x82 := 0][0x83 := 0]
  }

  function InodeSum(seed: Word, ino: nat, b: seq<Byte>): Word
    requires |b| == INODE_SIZE
  {
    E2fs(seed, Le32(ino) + b[0x64..0x68] + InodeCleared(b))
  }

  /** The fields hold the checksum of number, generation and the inode without them: what a reader
      that clears them and computes it again compares. */
  predicate InodeSigned(seed: Word, ino: nat, b: seq<Byte>)
    requires |b| == INODE_SIZE
  {
    var c := InodeSum(seed, ino, b);
    b[0x7C] == ByteOf(c, 0) && b[0x7D] == ByteOf(c, 1) && b[0x82] == ByteOf(c, 2) && b[0x83] == ByteOf(c, 3)
  }

  /** The bytes are those of the word from the k-th on. */
  predicate Holds(x: seq<Byte>, w: Word, k: nat)
    requires k + |x| <= 4
  {
    x == [] || (x[0] == ByteOf(w, k) && Holds(x[1..], w, k + 1))
  }

  /** That is, they have its bits. */
  lemma {:induction false} BytesOfWord(x: seq<Byte>, w: Word, k: nat)
    requires k + |x| <= 4
    ensures Holds(x, w, k) <==> Stream(x) == w[8 * k..8 * (k + |x|)]
    decreases |x|
  {
    if x == [] {
    } else {
      var rest, a, b, c := x[1..], 8 * k, 8 * k + 8, 8 * (k + |x|);
      BytesOfWord(rest, w, k + 1);
      FirstByteOf(x[0], w, k, w[a..b]);
      SliceApart(w, a, b, c);
      FrontApart(LsbFirst(x[0], 8), Stream(rest), w[a..b], w[b..c]);
    }
  }

  lemma SliceApart(w: seq<bool>, a: nat, b: nat, c: nat)
    requires a <= b <= c <= |w|
    ensures w[a..c] == w[a..b] + w[b..c]
  {
  }

  lemma FrontApart(a: seq<bool>, b: seq<bool>, c: seq<bool>, d: seq<bool>)
    requires |a| == |c|
    ensures a + b == c + d <==> a == c && b == d
  {
    assert (a + b)[..|a|] == a && (c + d)[..|c|] == c;
    assert (a + b)[|a|..] == b && (c + d)[|c|..] == d;
  }

  lemma FirstByteOf(x: Byte, w: Word, k: nat, front: seq<bool>)
    requires k < 4 && front == w[8 * k..8 * k + 8]
    ensures x == ByteOf(w, k) <==> LsbFirst(x, 8) == front
  {
    LsbOfValue(w, 8 * k, 8);
    if LsbFirst(x, 8) == front {
      Pow2Eight(8);
      ValueAt(w, 8 * k, x, 8);
    }
  }

  /** What a signed inode is: the four bytes at 0x7C and 0x82 hold the remainder of its number, its
      generation, and itself with zeros for those bytes. */
  lemma InodeSignedIs(seed: Word, ino: nat, b: seq<Byte>)
    requires |b| == 256
    ensures InodeSigned(seed, ino, b) <==>
      Stream([b[0x7C], b[0x7D], b[0x82], b[0x83]]) == Remainder(XorHead(Stream(
        Le32(ino) + b[0x64..0x68] + (b[..0x7C] + [0, 0] + b[0x7E..0x82] + [0, 0] + b[0x84..])) + Zeros(32), seed),
        CRC32C_POLY)
  {
    var cleared := b[..0x7C] + [0, 0] + b[0x7E..0x82] + [0, 0] + b[0x84..];
    assert cleared == InodeCleared(b);
    E2fsIsRemainder(seed, Le32(ino) + b[0x64..0x68] + cleared);
    FourBytes(b[0x7C], b[0x7D], b[0x82], b[0x83], InodeSum(seed, ino, b));
  }

  lemma HoldsCons(x: Byte, rest: seq<Byte>, w: Word, k: nat)
    requires k + 1 + |rest| <= 4
    ensures Holds([x] + rest, w, k) <==> x == ByteOf(w, k) && Holds(rest, w, k + 1)
  {
    assert ([x] + rest)[1..] == rest;
  }

  lemma FourBytes(x0: Byte, x1: Byte, x2: Byte, x3: Byte, w: Word)
    ensures x0 == ByteOf(w, 0) && x1 == ByteOf(w, 1) && x2 == ByteOf(w, 2) && x3 == ByteOf(w, 3)
      <==> Stream([x0, x1, x2, x3]) == w
  {
    BytesOfWord([x0, x1, x2, x3], w, 0);
    assert w[0..32] == w;
    HoldsCons(x0, [x1, x2, x3], w, 0);
    HoldsCons(x1, [x2, x3], w, 1);
    HoldsCons(x2, [x3], w, 2);
    HoldsCons(x3, [], w, 3);
    assert [x0] + [x1, x2, x3] == [x0, x1, x2, x3] && [x1] + [x2, x3] == [x1, x2, x3];
    assert [x2] + [x3] == [x2, x3] && [x3] + [] == [x3];
  }

  lemma TwoBytes(x0: Byte, x1: Byte, w: Word)
    ensures x0 == ByteOf(w, 0) && x1 == ByteOf(w, 1) <==> Stream([x0, x1]) == w[..16]
  {
    BytesOfWord([x0, x1], w, 0);
    assert w[0..16] == w[..16];
    HoldsCons(x0, [x1], w, 0);
    HoldsCons(x1, [], w, 1);
    assert [x0] + [x1] == [x0, x1] && [x1] + [] == [x1];
  }

  lemma ClearedAgain(was: seq<Byte>, now: seq<Byte>, x0: Byte, x1: Byte, x2: Byte, x3: Byte)
    requires |was| == INODE_SIZE && now == InodeCleared(was)[0x7C := x0][0x7D := x1][0x82 := x2][0x83 := x3]
    ensures InodeCleared(now) == InodeCleared(was) && now[0x64..0x68] == was[0x64..0x68]
    ensures now[0x7C] == x0 && now[0x7D] == x1 && now[0x82] == x2 && now[0x83] == x3
  {
  }

  /** A checksum over number, generation and what they belong to, in three pieces. */
  method ThreePieces(tab: Table, seed: Word, ino: nat, gen: seq<Byte>, b: seq<Byte>) returns (c: Word)
    requires tab.Valid() && tab.ready && tab.poly == CRC32C_POLY
    ensures c == E2fs(seed, Le32(ino) + gen + b)
  {
    var inoBuf := Le32(ino);
    c := Crc32cE2fs(tab, seed, inoBuf);
    c := Crc32cE2fs(tab, c, gen);
    c := Crc32cE2fs(tab, c, b);
    E2fsSplit(seed, inoBuf, gen);
    E2fsSplit(seed, inoBuf + gen, b);
  }

  method InodeSetCsum(tab: Table, b: array<Byte>, ino: nat, seed: Word)
    requires tab.Valid() && tab.ready && tab.poly == CRC32C_POLY && b.Length == INODE_SIZE
    modifies b
    ensures InodeSigned(seed, ino, b[..]) && InodeCleared(b[..]) == InodeCleared(old(b[..]))
  {
    ghost var was := b[..];
    var genBuf := b[0x64..0x68];
    b[0x7C], b[0x7D] := 0, 0;
    b[0x82], b[0x83] := 0, 0;
    assert b[..] == InodeCleared(was);
    var c := ThreePieces(tab, seed, ino, genBuf, b[..]);
    var x0, x1, x2, x3 := ByteOf(c, 0), ByteOf(c, 1), ByteOf(c, 2), ByteOf(c, 3);
    b[0x7C], b[0x7D] := x0, x1;
    b[0x82], b[0x83] := x2, x3;
    ClearedAgain(was, b[..], x0, x1, x2, x3);
  }

  // ------------------------------------------------------------- descriptors

  const DESC_SIZE := 64
  const G_CHECK := 0x1E

  function DescCleared(b: seq<Byte>): seq<Byte>
    requires |b| == DESC_SIZE
  {
    b[G_CHECK := 0][G_CHECK + 1 := 0]
  }

  /** A descriptor holds the lower half of the checksum of its number and of itself. */
  predicate DescSigned(seed: Word, g: nat, b: seq<Byte>)
    requires |b| == DESC_SIZE
  {
    var c := E2fs(seed, Le32(g) + DescCleared(b));
    b[G_CHECK] == ByteOf(c, 0) && b[G_CHECK + 1] == ByteOf(c, 1)
  }

  /** What a signed descriptor is: the two bytes at 0x1E hold the lower half of the remainder of its
      number and itself with zeros for those bytes. */
  lemma DescSignedIs(seed: Word, g: nat, b: seq<Byte>)
    requires |b| == 64
    ensures DescSigned(seed, g, b) <==>
      Stream([b[0x1E], b[0x1F]]) == Remainder(XorHead(Stream(
        Le32(g) + (b[..0x1E] + [0, 0] + b[0x20..])) + Zeros(32), seed), CRC32C_POLY)[..16]
  {
    var cleared := b[..0x1E] + [0, 0] + b[0x20..];
    assert cleared == DescCleared(b);
    E2fsIsRemainder(seed, Le32(g) + cleared);
    TwoBytes(b[0x1E], b[0x1F], E2fs(seed, Le32(g) + cleared));
  }

  lemma DescClearedAgain(was: seq<Byte>, now: seq<Byte>, x0: Byte, x1: Byte)
    requires |was| == DESC_SIZE && now == DescCleared(was)[G_CHECK := x0][G_CHECK + 1 := x1]
    ensures DescCleared(now) == DescCleared(was) && now[G_CHECK] == x0 && now[G_CHECK + 1] == x1
  {
  }

  method GdtSetCsum(tab: Table, b: array<Byte>, g: nat, seed: Word)
    requires tab.Valid() && tab.ready && tab.poly == CRC32C_POLY && b.Length == DESC_SIZE
    modifies b
    ensures DescSigned(seed, g, b[..]) && DescCleared(b[..]) == DescCleared(old(b[..]))
  {
    ghost var was := b[..];
    b[G_CHECK], b[G_CHECK + 1] := 0, 0;
    assert b[..] == DescCleared(was);
    var l := Le32(g);
    var c := Crc32cE2fs(tab, seed, l);
    c := Crc32cE2fs(tab, c, b[..]);
    E2fsSplit(seed, l, b[..]);
    var x0, x1 := ByteOf(c, 0), ByteOf(c, 1);
    b[G_CHECK], b[G_CHECK + 1] := x0, x1;
    DescClearedAgain(was, b[..], x0, x1);
  }

  // ------------------------------------------------------------- directories

  /** The checksum of a directory block leaves out the twelve bytes of its own tail. */
  method DirCsum(tab: Table, seed: Word, blk: seq<Byte>, ino: nat, gen: nat) returns (c: Word)
    requires tab.Valid() && tab.ready && tab.poly == CRC32C_POLY && |blk| >= 12
    ensures c == E2fs(seed, Le32(ino) + Le32(gen) + blk[..|blk| - 12])
  {
    c := ThreePieces(tab, seed, ino, Le32(gen), blk[..|blk| - 12]);
  }
}
