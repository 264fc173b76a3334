/** gzip members (src/compress/decompress.c, section 2.3 of RFC 1952). */
module Gzip {
  import opened Bits
  import opened BitReader
  import opened Buffer
  import Crc
  import Inflate
  import S = InflateSpec

  // -------------------------------------------------- what the header skip computes

  /** Flag bit n of the FLG byte. */
  predicate Flag(flg: Byte, n: nat)
    requires n < 8
  {
    LsbFirst(flg, 8)[n]
  }

  /** The position after the bytes up to and including the next zero, or -1. */
  function AfterString(p: seq<Byte>, o: nat): (r: int)
    requires o <= |p|
    ensures r == -1 || o < r <= |p|
    decreases |p| - o
  {
    if o == |p| then -1 else if p[o] == 0 then o + 1 else AfterString(p, o + 1)
  }

  function AfterExtra(p: seq<Byte>, o: nat): (r: int)
    requires o <= |p|
    ensures r == -1 || o < r <= |p|
  {
    if o + 2 > |p| then -1
    else
      var end := o + 2 + p[o] as int + 256 * (p[o + 1] as int);
      if end > |p| then -1 else end
  }

  function AfterHcrc(p: seq<Byte>, o: nat): (r: int)
    requires o <= |p|
    ensures r == -1 || o < r <= |p|
  {
    if o + 2 > |p| then -1 else o + 2
  }

  /** One optional field: FEXTRA (2), FNAME (3), FCOMMENT (4) or FHCRC (1), if its flag is set. */
  function AfterField(p: seq<Byte>, o: int, flg: Byte, field: nat): (r: int)
    requires o <= |p| && 1 <= field <= 4
    ensures r == -1 || (0 <= o <= r <= |p|)
  {
    if o < 0 then -1
    else if !Flag(flg, field) then o
    else if field == 2 then AfterExtra(p, o)
    else if field == 1 then AfterHcrc(p, o)
    else AfterString(p, o)
  }

  /** Where the compressed data starts, or -1 when the header is not acceptable. */
  function HeaderEnd(p: seq<Byte>): (r: int)
    ensures r == -1 || 10 <= r < |p|
  {
    if |p| < 18 || p[0] != 0x1F || p[1] != 0x8B || p[2] != 8 then -1
    else
      var flg := p[3];
      var o := AfterField(p, AfterField(p, AfterField(p, AfterField(p, 10, flg, 2), flg, 3), flg, 4), flg, 1);
      if o < 0 || o >= |p| then -1 else o
  }

  const TWO_32 := 0x1_0000_0000

  function Read32(p: seq<Byte>, o: nat): nat
    requires o + 4 <= |p|
  {
    p[o] as int + 256 * (p[o + 1] as int) + 0x1_0000 * (p[o + 2] as int) + 0x100_0000 * (p[o + 3] as int)
  }

  /** The CRC-32 of a byte string as a number. */
  function Crc32(data: seq<Byte>): nat {
    Value(Crc.Update(Crc.CRC32_POLY, Crc.Zeros(32), data), 0, 32)
  }

  predicate TrailerOk(p: seq<Byte>, out: seq<Byte>)
    requires |p| >= 8
  {
    Read32(p, |p| - 8) == Crc32(out) && Read32(p, |p| - 4) == |out| % TWO_32
  }

  /** What decompression returns, and the output it leaves. */
  function Decompress(p: seq<Byte>, out: seq<Byte>): (bool, seq<Byte>) {
    var off := HeaderEnd(p);
    if off < 0 || off + 8 > |p| then (false, out)
    else
      var r := S.InflateAll(Stream(p[off..|p| - 8]), 0, out);
      (r.v >= 0 && TrailerOk(p, r.out), r.out)
  }

  lemma DecompressFrom(p: seq<Byte>, off: nat, data: seq<Byte>, out: seq<Byte>, r: S.OutRes)
    requires HeaderEnd(p) == off && off + 8 <= |p| && data == p[off..|p| - 8]
    requires r == S.InflateAll(Stream(data), 0, out)
    ensures Decompress(p, out) == (r.v >= 0 && TrailerOk(p, r.out), r.out)
  {
  }

  // ------------------------------------------------------------- the methods

  /** Advances past a zero-terminated string; false when the input ends first. */
  method SkipString(p: seq<Byte>, o: nat) returns (end: int)
    requires o <= |p|
    ensures end == AfterString(p, o)
  {
    var i := o;
    while i < |p| && p[i] != 0
      invariant o <= i <= |p| && AfterString(p, i) == AfterString(p, o)
    {
      i := i + 1;
    }
    if i >= |p| {
      return -1;
    }
    return i + 1;
  }

  method Advance(p: seq<Byte>, o: nat, n: nat) returns (end: int)
    requires o <= |p|
    ensures end == if o + n > |p| then -1 else o + n
  {
    if o + n > |p| {
      return -1;
    }
    return o + n;
  }

  method SkipFextra(p: seq<Byte>, o: nat) returns (end: int)
    requires o <= |p|
    ensures end == AfterExtra(p, o)
  {
    if o + 2 > |p| {
      return -1;
    }
    var xlen := p[o] as int + 256 * (p[o + 1] as int);
    end := Advance(p, o, 2 + xlen);
  }

  method SkipTail(p: seq<Byte>, start: nat, flg: Byte) returns (end: int)
    requires start <= |p|
    ensures end == AfterField(p, AfterField(p, AfterField(p, start, flg, 3), flg, 4), flg, 1)
  {
    var o := start;
    if Flag(flg, 3) {
      var e := SkipString(p, o);
      if e < 0 {
        return -1;
      }
      o := e;
    }
    if Flag(flg, 4) {
      var e := SkipString(p, o);
      if e < 0 {
        return -1;
      }
      o := e;
    }
    if Flag(flg, 1) {
      end := Advance(p, o, 2);
      return;
    }
    return o;
  }

  method SkipHeader(p: seq<Byte>) returns (off: int)
    ensures off == HeaderEnd(p)
  {
    if |p| < 18 || p[0] != 0x1F || p[1] != 0x8B || p[2] != 8 {
      return -1;
    }
    var o := 10;
    if Flag(p[3], 2) {
      var e := SkipFextra(p, o);
      if e < 0 {
        return -1;
      }
      o := e;
    }
    off := SkipTail(p, o, p[3]);
    if off < 0 || off >= |p| {
      return -1;
    }
  }

  method CheckTrailer(p: seq<Byte>, out: Buf) returns (ok: bool)
    requires |p| >= 8 && out.Valid()
    ensures ok == TrailerOk(p, out.Contents())
  {
    var expectedCrc := Read32(p, |p| - 8);
    var expectedLen := Read32(p, |p| - 4);
    var table := new Crc.Table(Crc.CRC32_POLY);
    table.Init();
    var actual := table.UpdateCrc(Crc.Zeros(32), out.data[..out.len]);
    if Value(actual, 0, 32) != expectedCrc {
      return false;
    }
    return expectedLen == out.len % TWO_32;
  }

  /** Decompresses a gzip member into `out`. */
  method DecompressGzip(p: seq<Byte>, out: Buf) returns (ok: bool)
    requires out.Valid()
    modifies out, out.data
    ensures out.Valid() && (out.data == old(out.data) || fresh(out.data))
    ensures (ok, out.Contents()) == Decompress(p, old(out.Contents()))
  {
    var off := SkipHeader(p);
    if off < 0 {
      return false;
    }
    if off + 8 > |p| {
      return false;
    }
    var br := new Reader(p[off..|p| - 8]);
    ghost var s, q, sofar := Stream(br.data), 0, out.Contents();
    ghost var want := S.InflateAll(s, q, sofar);
    while true
      invariant br.Valid() && out.Valid() && fresh(br) && (out.data == old(out.data) || fresh(out.data))
      invariant q == br.Pos() && sofar == out.Contents() && want == S.InflateAll(s, q, sofar)
      decreases |s| - q
    {
      var r := Inflate.InflateBlock(br, out);
      S.AllStep(s, q, sofar, S.InflateBlock(s, q, sofar));
      q, sofar := br.Pos(), out.Contents();
      if r < 0 {
        return false;
      }
      if r != 0 {
        break;
      }
    }
    ok := CheckTrailer(p, out);
  }
}
