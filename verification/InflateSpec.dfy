/** What src/compress/inflate.c computes, as functions of the bits s, the position p of the
    next unread bit and the output so far. Every outcome is covered, failures included. */
module InflateSpec {
  import opened Bits
  import opened HuffmanCode

  const LEN_BASE: seq<nat> := [
    3, 4, 5, 6, 7, 8, 9, 10, 11, 13, 15, 17, 19, 23, 27, 31, 35, 43, 51, 59,
    67, 83, 99, 115, 131, 163, 195, 227, 258
  ]

  const LEN_EXTRA: seq<nat> := [
    0, 0, 0, 0, 0, 0, 0, 0, 1, 1, 1, 1, 2, 2, 2, 2, 3, 3, 3, 3, 4, 4, 4, 4, 5, 5, 5, 5, 0
  ]

  const DIST_BASE: seq<nat> := [
    1, 2, 3, 4, 5, 7, 9, 13, 17, 25, 33, 49, 65, 97, 129, 193, 257, 385, 513, 769,
    1025, 1537, 2049, 3073, 4097, 6145, 8193, 12289, 16385, 24577
  ]

  const DIST_EXTRA: seq<nat> := [
    0, 0, 0, 0, 1, 1, 2, 2, 3, 3, 4, 4, 5, 5, 6, 6, 7, 7, 8, 8, 9, 9, 10, 10, 11, 11, 12, 12, 13, 13
  ]

  /** The order in which a dynamic header lists the lengths of the length code. */
  const CL_ORD: seq<nat> := [16, 17, 18, 0, 8, 7, 9, 6, 10, 5, 11, 4, 12, 3, 13, 2, 14, 1, 15]

  function ClOrd(i: nat): (r: nat)
    requires i < 19
    ensures r < 19
  {
    CL_ORD[i]
  }

  /** A read that also produces output: v is -1 on failure. */
  datatype OutRes = OutRes(v: int, p: nat, out: seq<Byte>)

  /** A read of code lengths; there are none when it fails. */
  datatype LensRes = LensRes(ok: bool, p: nat, lens: seq<CodeLen>)

  datatype DynRes = DynRes(ok: bool, p: nat, ll: seq<CodeLen>, dl: seq<CodeLen>)

  // ------------------------------------------------------------ stored blocks

  function StoredBytes(s: seq<bool>, p: nat, out: seq<Byte>, n: nat): (r: OutRes)
    requires p <= |s|
    ensures (r.v == -1 || r.v == 0) && p <= r.p <= |s|
    decreases n
  {
    if n == 0 then OutRes(0, p, out)
    else
      var b := GetBits(s, p, 8);
      if b.v < 0 then OutRes(-1, b.p, out)
      else
        ByteValue(s, p, 8);
        StoredBytes(s, b.p, out + [b.v], n - 1)
  }

  lemma ByteValue(s: seq<bool>, p: nat, n: nat)
    requires n == 8 && p + n <= |s|
    ensures Value(s, p, n) < 256
  {
    ValueBound(s, p, n);
    Pow2Eight(n);
  }

  /** NLEN is read and ignored; not even its absence is noticed. */
  function DecodeStored(s: seq<bool>, p: nat, out: seq<Byte>): (r: OutRes)
    requires p <= |s| && |s| % 8 == 0
    ensures (r.v == -1 || r.v == 0) && p <= r.p <= |s|
  {
    var len := GetBits(s, (p + 7) / 8 * 8, 16);
    var nlen := GetBits(s, len.p, 16);
    if len.v < 0 then OutRes(-1, nlen.p, out)
    else StoredBytes(s, nlen.p, out, len.v)
  }

  lemma StoredFrom(s: seq<bool>, p: nat, out: seq<Byte>, a: nat, len: Res, nlen: Res)
    requires p <= a <= |s| && |s| % 8 == 0 && a == (p + 7) / 8 * 8
    requires len == GetBits(s, a, 16) && nlen == GetBits(s, len.p, 16) && len.v >= 0
    ensures DecodeStored(s, p, out) == StoredBytes(s, nlen.p, out, len.v)
  {
  }

  // --------------------------------------------------------- compressed data

  /** A base value with extra bits added. */
  function AddExtra(s: seq<bool>, p: nat, base: nat, extra: nat): (r: Res)
    requires p <= |s|
    ensures r.v >= -1 && p <= r.p <= |s|
  {
    if extra == 0 then Res(base, p)
    else
      var e := GetBits(s, p, extra);
      if e.v < 0 then e else Res(base + e.v, e.p)
  }

  function GetLen(s: seq<bool>, p: nat, sym: nat): (r: Res)
    requires p <= |s| && sym >= 257
    ensures r.v >= -1 && p <= r.p <= |s|
  {
    var slot := sym - 257;
    if slot >= 29 then Res(-1, p) else AddExtra(s, p, LEN_BASE[slot], LEN_EXTRA[slot])
  }

  /** Distance symbols 30 and 31 give distance 0, which no copy accepts. */
  function GetDist(s: seq<bool>, p: nat, dl: seq<CodeLen>): (r: Res)
    requires p <= |s|
    ensures r.v >= -1 && p <= r.p <= |s|
    ensures r.v >= 0 ==> p < r.p
  {
    var d := Decode(dl, s, p);
    if d.v < 0 then d
    else if d.v >= 30 then Res(0, d.p)
    else AddExtra(s, d.p, DIST_BASE[d.v], DIST_EXTRA[d.v])
  }

  /** What a match denotes: byte i is the byte `distance` before the end, i modulo distance. */
  function Copied(out: seq<Byte>, length: nat, distance: nat): (r: seq<Byte>)
    requires 1 <= distance <= |out|
    ensures |r| == |out| + length
  {
    out + seq(length, i requires 0 <= i => out[|out| - distance + i % distance])
  }

  predicate CopyAccepted(out: seq<Byte>, length: int, distance: int) {
    3 <= length <= 258 && 1 <= distance <= |out|
  }

  /** v is -1 on failure, 1 at the end of the block and 0 otherwise. */
  function DoSym(s: seq<bool>, p: nat, out: seq<Byte>, dl: seq<CodeLen>, sym: nat): (r: OutRes)
    requires p <= |s|
    ensures -1 <= r.v <= 1 && p <= r.p <= |s|
  {
    if sym < 256 then OutRes(0, p, out + [sym])
    else if sym == 256 then OutRes(1, p, out)
    else
      var length := GetLen(s, p, sym);
      if length.v < 0 then OutRes(-1, length.p, out)
      else
        var distance := GetDist(s, length.p, dl);
        if distance.v < 0 || !CopyAccepted(out, length.v, distance.v) then OutRes(-1, distance.p, out)
        else OutRes(0, distance.p, Copied(out, length.v, distance.v))
  }

  lemma MatchStep(s: seq<bool>, p: nat, out: seq<Byte>, dl: seq<CodeLen>, sym: nat, length: Res, distance: Res)
    requires p <= |s| && sym > 256 && length == GetLen(s, p, sym)
    requires length.v >= 0 && distance == GetDist(s, length.p, dl)
    requires distance.v >= 0 && CopyAccepted(out, length.v, distance.v)
    ensures DoSym(s, p, out, dl, sym) == OutRes(0, distance.p, Copied(out, length.v, distance.v))
  {
  }

  function RunLoop(s: seq<bool>, p: nat, out: seq<Byte>, ll: seq<CodeLen>, dl: seq<CodeLen>, last: nat): (r: OutRes)
    requires p <= |s|
    ensures r.v >= -1 && p <= r.p <= |s|
    decreases |s| - p
  {
    var d := Decode(ll, s, p);
    if d.v < 0 then OutRes(-1, d.p, out)
    else
      var r := DoSym(s, d.p, out, dl, d.v);
      if r.v < 0 then OutRes(-1, r.p, r.out)
      else if r.v > 0 then OutRes(last, r.p, r.out)
      else RunLoop(s, r.p, r.out, ll, dl, last)
  }

  lemma LoopStep(s: seq<bool>, p: nat, out: seq<Byte>, ll: seq<CodeLen>, dl: seq<CodeLen>, last: nat, d: Res, r: OutRes)
    requires p <= |s| && d == Decode(ll, s, p) && d.v >= 0
    requires r == DoSym(s, d.p, out, dl, d.v) && r.v == 0
    ensures RunLoop(s, p, out, ll, dl, last) == RunLoop(s, r.p, r.out, ll, dl, last)
  {
  }

  // --------------------------------------------------------- dynamic headers

  /** Repeats stop at `total`, without complaint. */
  function FillRep(acc: seq<CodeLen>, total: nat, rep: nat, val: CodeLen): (r: seq<CodeLen>)
    requires |acc| <= total
    ensures |acc| <= |r| <= total
  {
    acc + seq(if rep <= total - |acc| then rep else total - |acc|, _ => val)
  }

  function RepLen(s: seq<bool>, p: nat, acc: seq<CodeLen>, total: nat, sym: nat): (r: LensRes)
    requires p <= |s| && |acc| <= total && 16 <= sym <= 18
    ensures p <= r.p <= |s| && (r.ok ==> |acc| <= |r.lens| <= total)
  {
    if sym == 16 then
      var raw := GetBits(s, p, 2);
      if raw.v < 0 || |acc| == 0 then LensRes(false, raw.p, [])
      else LensRes(true, raw.p, FillRep(acc, total, raw.v + 3, acc[|acc| - 1]))
    else
      var raw := GetBits(s, p, if sym == 17 then 3 else 7);
      if raw.v < 0 then LensRes(false, raw.p, [])
      else LensRes(true, raw.p, FillRep(acc, total, raw.v + if sym == 17 then 3 else 11, 0))
  }

  function DecodeLens(s: seq<bool>, p: nat, cl: seq<CodeLen>, acc: seq<CodeLen>, total: nat): (r: LensRes)
    requires p <= |s| && |acc| <= total && |cl| == 19
    ensures p <= r.p <= |s| && (r.ok ==> |r.lens| == total)
    decreases |s| - p
  {
    if |acc| == total then LensRes(true, p, acc)
    else
      var d := Decode(cl, s, p);
      if d.v < 0 then LensRes(false, d.p, [])
      else if d.v < 16 then DecodeLens(s, d.p, cl, acc + [d.v], total)
      else
        var r := RepLen(s, d.p, acc, total, d.v);
        if !r.ok then r else DecodeLens(s, r.p, cl, r.lens, total)
  }

  lemma LensStepLen(s: seq<bool>, p: nat, cl: seq<CodeLen>, acc: seq<CodeLen>, total: nat, d: Res)
    requires p <= |s| && |acc| < total && |cl| == 19 && d == Decode(cl, s, p) && 0 <= d.v < 16
    ensures DecodeLens(s, p, cl, acc, total) == DecodeLens(s, d.p, cl, acc + [d.v], total)
  {
  }

  lemma LensStepRun(s: seq<bool>, p: nat, cl: seq<CodeLen>, acc: seq<CodeLen>, total: nat, d: Res, r: LensRes)
    requires p <= |s| && |acc| < total && |cl| == 19 && d == Decode(cl, s, p) && d.v >= 16
    requires r.ok && r == RepLen(s, d.p, acc, total, d.v)
    ensures DecodeLens(s, p, cl, acc, total) == DecodeLens(s, r.p, cl, r.lens, total)
  {
  }

  /** Reads the lengths of the length code from the i-th listed one on. */
  function ReadClLens(s: seq<bool>, p: nat, i: nat, nc: nat, cl: seq<CodeLen>): (r: LensRes)
    requires p <= |s| && i <= nc <= 19 && |cl| == 19
    ensures p <= r.p <= |s| && (r.ok ==> |r.lens| == 19)
    decreases nc - i
  {
    if i == nc then LensRes(true, p, cl)
    else
      var v := GetBits(s, p, 3);
      if v.v < 0 then LensRes(false, v.p, [])
      else
        ClValue(s, p, 3);
        ReadClLens(s, v.p, i + 1, nc, cl[ClOrd(i) := v.v])
  }

  function NoClLens(): (r: seq<CodeLen>)
    ensures |r| == 19
  {
    seq(19, _ => 0)
  }

  lemma ClValue(s: seq<bool>, p: nat, n: nat)
    requires n == 3 && p + n <= |s|
    ensures Value(s, p, n) < 8
  {
    ValueBound(s, p, n);
  }

  /** Reads the length code, of which n lengths are listed, and then the lengths. */
  function LengthsBehind(s: seq<bool>, p: nat, n: nat, total: nat): (r: LensRes)
    requires p <= |s| && n <= 19
    ensures p <= r.p <= |s| && (r.ok ==> |r.lens| == total)
  {
    var cl := ReadClLens(s, p, 0, n, NoClLens());
    if !cl.ok then cl else DecodeLens(s, cl.p, cl.lens, [], total)
  }

  /** A failed read of a count is -1 plus its base, exactly as in the code. */
  function ReadCodeLengths(s: seq<bool>, p: nat, nl: nat, nd: nat): (r: LensRes)
    requires p <= |s|
    ensures p <= r.p <= |s| && (r.ok ==> |r.lens| == nl + nd)
  {
    var nc := GetBits(s, p, 4);
    SmallValue(s, p, 4);
    LengthsBehind(s, nc.p, nc.v + 4, nl + nd)
  }

  lemma CodeLengthsCases(s: seq<bool>, p: nat, nl: nat, nd: nat)
    requires p <= |s|
    ensures var nc := GetBits(s, p, 4);
      0 <= nc.v + 4 <= 19 && ReadCodeLengths(s, p, nl, nd) == LengthsBehind(s, nc.p, nc.v + 4, nl + nd)
  {
    SmallValue(s, p, 4);
  }

  lemma CodeLengthsFrom(s: seq<bool>, p: nat, nl: nat, nd: nat, nc: Res, n: nat, total: nat, cl: LensRes, r: LensRes)
    requires p <= |s| && nc == GetBits(s, p, 4) && n == nc.v + 4 <= 19
    requires cl.ok && cl == ReadClLens(s, nc.p, 0, n, NoClLens())
    requires total == nl + nd && r == DecodeLens(s, cl.p, cl.lens, [], total)
    ensures ReadCodeLengths(s, p, nl, nd) == r
  {
    CodeLengthsCases(s, p, nl, nd);
    LengthsFrom(s, nc.p, n, total, cl, r);
  }

  lemma LengthsFrom(s: seq<bool>, p: nat, n: nat, total: nat, cl: LensRes, r: LensRes)
    requires p <= |s| && n <= 19 && cl.ok && cl == ReadClLens(s, p, 0, n, NoClLens())
    requires r == DecodeLens(s, cl.p, cl.lens, [], total)
    ensures LengthsBehind(s, p, n, total) == r
  {
  }

  lemma SmallValue(s: seq<bool>, p: nat, n: nat)
    requires p <= |s| && n <= 5
    ensures GetBits(s, p, n).v < Pow2(n) <= 32
  {
    if p + n <= |s| { ValueBound(s, p, n); }
    Pow2Monotone(n, 5);
  }

  /** The two vectors, when the lengths could be read. */
  function Vectors(lens: LensRes, nl: nat): (r: DynRes)
    requires lens.ok ==> nl <= |lens.lens|
    ensures r.p == lens.p
  {
    if !lens.ok then DynRes(false, lens.p, [], []) else DynRes(true, lens.p, lens.lens[..nl], lens.lens[nl..])
  }

  function ReadDynamic(s: seq<bool>, p: nat): (r: DynRes)
    requires p <= |s|
    ensures p <= r.p <= |s|
  {
    var nl := GetBits(s, p, 5);
    var nd := GetBits(s, nl.p, 5);
    Vectors(ReadCodeLengths(s, nd.p, nl.v + 257, nd.v + 1), nl.v + 257)
  }

  lemma DynamicCases(s: seq<bool>, p: nat, nl: Res, nd: Res, n: nat, m: nat)
    requires p <= |s| && nl == GetBits(s, p, 5) && nd == GetBits(s, nl.p, 5)
    requires n == nl.v + 257 && m == nd.v + 1
    ensures n <= 288 && m <= 32 && ReadDynamic(s, p) == Vectors(ReadCodeLengths(s, nd.p, n, m), n)
  {
    SmallValue(s, p, 5);
    SmallValue(s, nl.p, 5);
  }

  lemma DynamicFrom(s: seq<bool>, p: nat, nl: Res, nd: Res, ll: seq<CodeLen>, dl: seq<CodeLen>, lens: LensRes)
    requires p <= |s| && nl == GetBits(s, p, 5) && nd == GetBits(s, nl.p, 5)
    requires |ll| == nl.v + 257 && |dl| == nd.v + 1
    requires lens.ok && lens == ReadCodeLengths(s, nd.p, |ll|, |dl|) && lens.lens == ll + dl
    ensures ReadDynamic(s, p) == DynRes(true, lens.p, ll, dl)
  {
    DynamicCases(s, p, nl, nd, |ll|, |dl|);
    assert (ll + dl)[..|ll|] == ll && (ll + dl)[|ll|..] == dl;
  }

  // ------------------------------------------------------------------ blocks

  function FixedLit(): (r: seq<CodeLen>)
    ensures |r| == 288
  {
    seq(288, i => if i < 144 then 8 else if i < 256 then 9 else if i < 280 then 7 else 8)
  }

  function FixedDist(): (r: seq<CodeLen>)
    ensures |r| == 32
  {
    seq(32, _ => 5)
  }

  /** v is -1 on failure and otherwise the block's "last block" bit. */
  function InflateBlock(s: seq<bool>, p: nat, out: seq<Byte>): (r: OutRes)
    requires p <= |s| && |s| % 8 == 0
    ensures r.v >= -1 && p <= r.p <= |s|
    ensures r.v >= 0 ==> p < r.p
  {
    var last := GetBits(s, p, 1);
    var kind := GetBits(s, last.p, 2);
    if kind.v < 0 || kind.v > 2 then OutRes(-1, kind.p, out)
    else if kind.v == 0 then
      var r := DecodeStored(s, kind.p, out);
      if r.v < 0 then r else r.(v := last.v)
    else if kind.v == 1 then
      RunLoop(s, kind.p, out, FixedLit(), FixedDist(), last.v)
    else
      var d := ReadDynamic(s, kind.p);
      if !d.ok then OutRes(-1, d.p, out)
      else RunLoop(s, d.p, out, d.ll, d.dl, last.v)
  }

  lemma BlockCases(s: seq<bool>, p: nat, out: seq<Byte>)
    requires p <= |s| && |s| % 8 == 0
    ensures var last := GetBits(s, p, 1);
      var kind := GetBits(s, last.p, 2);
      && (kind.v < 0 || kind.v > 2 ==> InflateBlock(s, p, out) == OutRes(-1, kind.p, out))
      && (0 <= kind.v <= 2 ==> last.v >= 0)
      && (kind.v == 0 ==>
            var r := DecodeStored(s, kind.p, out);
            InflateBlock(s, p, out) == if r.v < 0 then r else r.(v := last.v))
      && (kind.v == 1 ==>
            InflateBlock(s, p, out) == RunLoop(s, kind.p, out, FixedLit(), FixedDist(), last.v))
      && (kind.v == 2 ==>
            var d := ReadDynamic(s, kind.p);
            InflateBlock(s, p, out) ==
              if !d.ok then OutRes(-1, d.p, out) else RunLoop(s, d.p, out, d.ll, d.dl, last.v))
  {
  }

  /** Blocks up to and including the last one: the loop of decompress_gzip. */
  function InflateAll(s: seq<bool>, p: nat, out: seq<Byte>): (r: OutRes)
    requires p <= |s| && |s| % 8 == 0
    ensures r.v >= -1 && p <= r.p <= |s|
    decreases |s| - p
  {
    var r := InflateBlock(s, p, out);
    if r.v != 0 then r else InflateAll(s, r.p, r.out)
  }

  lemma AllStep(s: seq<bool>, p: nat, out: seq<Byte>, r: OutRes)
    requires p <= |s| && |s| % 8 == 0 && r == InflateBlock(s, p, out)
    ensures InflateAll(s, p, out) == if r.v != 0 then r else InflateAll(s, r.p, r.out)
  {
  }

  /** A block whose header bits and body have been read. */
  lemma BlockFrom(s: seq<bool>, p: nat, out: seq<Byte>, last: Res, kind: Res, r: OutRes)
    requires p <= |s| && |s| % 8 == 0 && last == GetBits(s, p, 1) && kind == GetBits(s, last.p, 2)
    requires 0 <= kind.v <= 2 && 0 <= last.v && r.v == last.v
    requires kind.v == 0 ==> DecodeStored(s, kind.p, out) == r.(v := 0)
    requires kind.v == 1 ==> RunLoop(s, kind.p, out, FixedLit(), FixedDist(), last.v) == r
    requires kind.v == 2 ==>
      var d := ReadDynamic(s, kind.p); d.ok && RunLoop(s, d.p, out, d.ll, d.dl, last.v) == r
    ensures InflateBlock(s, p, out) == r
  {
    BlockCases(s, p, out);
  }
}
