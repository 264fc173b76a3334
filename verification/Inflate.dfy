/** The inflater of src/compress/inflate.c, loop by loop, proved against InflateSpec. */
module Inflate {
  import opened Arith
  import opened Bits
  import opened HuffmanCode
  import opened HuffmanTable
  import opened BitReader
  import opened Buffer
  import S = InflateSpec

  ghost function After(br: Reader, v: int): Res
    reads br
    requires br.Valid()
  {
    Res(v, br.Pos())
  }

  ghost function AfterOut(br: Reader, out: Buf, v: int): S.OutRes
    reads br, out, out.data
    requires br.Valid() && out.Valid()
  {
    S.OutRes(v, br.Pos(), out.Contents())
  }

  method StoredBytes(br: Reader, out: Buf, len: nat) returns (r: int)
    requires br.Valid() && out.Valid()
    modifies br, out, out.data
    ensures br.Valid() && out.Valid() && (out.data == old(out.data) || fresh(out.data))
    ensures AfterOut(br, out, r) == S.StoredBytes(Stream(br.data), old(br.Pos()), old(out.Contents()), len)
  {
    ghost var s, p := Stream(br.data), br.Pos();
    ghost var want := S.StoredBytes(s, p, out.Contents(), len);
    for i := 0 to len
      invariant br.Valid() && out.Valid() && (out.data == old(out.data) || fresh(out.data))
      invariant p == br.Pos() && want == S.StoredBytes(s, p, out.Contents(), len - i)
    {
      StoredNext(s, p, out.Contents(), len - i);
      var ok := StoredByte(br, out);
      if !ok {
        return -1;
      }
      p := br.Pos();
    }
    return 0;
  }

  /** Moves one byte from the input to the output. */
  method StoredByte(br: Reader, out: Buf) returns (ok: bool)
    requires br.Valid() && out.Valid()
    modifies br, out, out.data
    ensures br.Valid() && out.Valid() && (out.data == old(out.data) || fresh(out.data))
    ensures var e := GetBits(Stream(br.data), old(br.Pos()), 8);
      && ok == (e.v >= 0) && br.Pos() == e.p && e.v < 256
      && out.Contents() == if ok then old(out.Contents()) + [e.v] else old(out.Contents())
  {
    if br.Pos() + 8 <= 8 * |br.data| { S.ByteValue(Stream(br.data), br.Pos(), 8); }
    var b := br.ReadBits(8);
    if b < 0 {
      return false;
    }
    out.AppendByte(b);
    return true;
  }

  lemma StoredNext(s: seq<bool>, p: nat, out: seq<Byte>, n: nat)
    requires p <= |s| && n > 0
    ensures var e := GetBits(s, p, 8);
      && e.v < 256
      && S.StoredBytes(s, p, out, n)
        == if e.v < 0 then S.OutRes(-1, e.p, out) else S.StoredBytes(s, e.p, out + [e.v], n - 1)
  {
    if p + 8 <= |s| { S.ByteValue(s, p, 8); }
  }

  ghost function AfterLens(br: Reader, ok: bool, lens: seq<CodeLen>): S.LensRes
    reads br
    requires br.Valid()
  {
    S.LensRes(ok, br.Pos(), if ok then lens else [])
  }

  method DecodeStored(br: Reader, out: Buf) returns (r: int)
    requires br.Valid() && out.Valid()
    modifies br, out, out.data
    ensures br.Valid() && out.Valid() && (out.data == old(out.data) || fresh(out.data))
    ensures AfterOut(br, out, r) == S.DecodeStored(Stream(br.data), old(br.Pos()), old(out.Contents()))
  {
    br.Align();
    var len := br.ReadBits(16);
    var _ := br.ReadBits(16);
    if len < 0 {
      return -1;
    }
    r := StoredBytes(br, out, len);
  }

  method FixedHuff(lit: array<CodeLen>, dst: array<CodeLen>)
    requires lit.Length == 320 && dst.Length == 32 && lit != dst
    modifies lit, dst
    ensures lit[..288] == S.FixedLit() && dst[..32] == S.FixedDist()
  {
    for i := 0 to 144
      invariant forall j :: 0 <= j < i ==> lit[j] == 8
    {
      lit[i] := 8;
    }
    for i := 144 to 256
      invariant lit[..i] == S.FixedLit()[..i]
    {
      lit[i] := 9;
    }
    for i := 256 to 280
      invariant lit[..i] == S.FixedLit()[..i]
    {
      lit[i] := 7;
    }
    for i := 280 to 288
      invariant lit[..i] == S.FixedLit()[..i]
    {
      lit[i] := 8;
    }
    for i := 0 to 32
      invariant lit[..288] == S.FixedLit() && dst[..i] == S.FixedDist()[..i]
    {
      dst[i] := 5;
    }
  }

  method FillRep(lit: array<CodeLen>, start: nat, total: nat, rep: nat, val: CodeLen) returns (idx: nat)
    requires start <= total <= lit.Length
    modifies lit
    ensures idx <= total && lit[..idx] == S.FillRep(old(lit[..start]), total, rep, val)
  {
    idx := start;
    for j := 0 to rep
      invariant idx == if start + j <= total then start + j else total
      invariant lit[..idx] == S.FillRep(old(lit[..start]), total, j, val)
    {
      if idx >= total {
        break;
      }
      lit[idx] := val;
      idx := idx + 1;
    }
  }

  method RepLen(br: Reader, lit: array<CodeLen>, start: nat, total: nat, sym: nat) returns (idx: int)
    requires br.Valid() && start < total <= lit.Length && 16 <= sym <= 18
    modifies br, lit
    ensures br.Valid() && -1 <= idx <= total
    ensures AfterLens(br, idx >= 0, if idx >= 0 then lit[..idx] else [])
         == S.RepLen(Stream(br.data), old(br.Pos()), old(lit[..start]), total, sym)
  {
    if sym == 16 {
      var raw := br.ReadBits(2);
      if raw < 0 || start < 1 {
        return -1;
      }
      idx := FillRep(lit, start, total, raw + 3, lit[start - 1]);
      return;
    }
    var nbits, base := 7, 11;
    if sym == 17 {
      nbits, base := 3, 3;
    }
    idx := RepZeros(br, lit, start, total, nbits, base);
  }

  /** A run of zeros, of base and nbits more bits' worth of lengths. */
  method RepZeros(br: Reader, lit: array<CodeLen>, start: nat, total: nat, nbits: nat, base: nat) returns (idx: int)
    requires br.Valid() && start < total <= lit.Length && 1 <= nbits <= 16
    modifies br, lit
    ensures br.Valid() && -1 <= idx <= total
    ensures var raw := GetBits(Stream(br.data), old(br.Pos()), nbits);
      br.Pos() == raw.p &&
      if raw.v < 0 then idx < 0
      else idx >= 0 && lit[..idx] == S.FillRep(old(lit[..start]), total, raw.v + base, 0)
  {
    var raw := br.ReadBits(nbits);
    if raw < 0 {
      return -1;
    }
    idx := FillRep(lit, start, total, raw + base, 0);
  }

  method DecodeLen(br: Reader, hc: Huff, lit: array<CodeLen>, total: nat) returns (ok: bool)
    requires br.Valid() && hc.Valid() && |hc.lens| == 19 && total <= lit.Length
    modifies br, lit
    ensures br.Valid()
    ensures AfterLens(br, ok, lit[..total]) == S.DecodeLens(Stream(br.data), old(br.Pos()), hc.lens, [], total)
  {
    ghost var s, p := Stream(br.data), br.Pos();
    ghost var want := S.DecodeLens(s, p, hc.lens, [], total);
    var idx := 0;
    assert lit[..0] == [];
    while idx < total
      invariant idx <= total && br.Valid() && hc.Valid() && p == br.Pos()
      invariant want == S.DecodeLens(s, p, hc.lens, lit[..idx], total)
      decreases |s| - p
    {
      ghost var acc := lit[..idx];
      var sym := hc.Decode(br);
      if sym < 0 {
        return false;
      }
      ghost var q := br.Pos();
      if sym < 16 {
        lit[idx] := sym;
        idx := idx + 1;
        assert lit[..idx] == acc + [sym];
      } else {
        var next := RepLen(br, lit, idx, total, sym);
        if next < 0 {
          return false;
        }
        idx := next;
      }
      p := br.Pos();
    }
    return true;
  }

  method ReadClLens(br: Reader, nc: nat) returns (ok: bool, cl: array<CodeLen>)
    requires br.Valid() && nc <= 19
    modifies br
    ensures br.Valid() && fresh(cl) && cl.Length == 19
    ensures AfterLens(br, ok, cl[..]) == S.ReadClLens(Stream(br.data), old(br.Pos()), 0, nc, S.NoClLens())
  {
    cl := new CodeLen[19](_ => 0);
    assert cl[..] == S.NoClLens();
    ghost var s, p := Stream(br.data), br.Pos();
    ghost var want := S.ReadClLens(s, p, 0, nc, cl[..]);
    for i := 0 to nc
      invariant br.Valid() && p == br.Pos()
      invariant want == S.ReadClLens(s, p, i, nc, cl[..])
    {
      var v := br.ReadBits(3);
      if v < 0 {
        return false, cl;
      }
      S.ClValue(s, p, 3);
      cl[S.ClOrd(i)] := v;
      p := p + 3;
    }
    return true, cl;
  }

  method ZeroLens(lit: array<CodeLen>)
    modifies lit
    ensures forall j :: 0 <= j < lit.Length ==> lit[j] == 0
  {
    for j := 0 to lit.Length
      invariant forall k :: 0 <= k < j ==> lit[k] == 0
    {
      lit[j] := 0;
    }
  }

  method ReadCodeLengths(br: Reader, lit: array<CodeLen>, nl: nat, nd: nat) returns (ok: bool)
    requires br.Valid() && lit.Length == 320 && nl + nd <= 320
    modifies br, lit
    ensures br.Valid()
    ensures AfterLens(br, ok, lit[..nl + nd]) == S.ReadCodeLengths(Stream(br.data), old(br.Pos()), nl, nd)
  {
    ghost var s, p := Stream(br.data), br.Pos();
    ghost var want := S.ReadCodeLengths(s, p, nl, nd);
    S.CodeLengthsCases(s, p, nl, nd);
    var nc := br.ReadBits(4);
    nc := nc + 4;
    var total := nl + nd;
    ghost var r := S.ReadClLens(s, br.Pos(), 0, nc, S.NoClLens());
    assert want == if !r.ok then r else S.DecodeLens(s, r.p, r.lens, [], total);
    var got, cl := ReadClLens(br, nc);
    if !got {
      return false;
    }
    ok := LensByCode(br, cl, lit, total);
  }

  /** The rest of read_code_lengths: decodes the lengths with the code just read. */
  method LensByCode(br: Reader, cl: array<CodeLen>, lit: array<CodeLen>, total: nat) returns (ok: bool)
    requires br.Valid() && cl.Length == 19 && lit.Length == 320 && total <= 320 && cl != lit
    modifies br, lit
    ensures br.Valid()
    ensures AfterLens(br, ok, lit[..total]) == S.DecodeLens(Stream(br.data), old(br.Pos()), old(cl[..]), [], total)
  {
    var ct := new Huff(cl, 19);
    assert ct.lens == cl[..];
    ZeroLens(lit);
    ok := DecodeLen(br, ct, lit, total);
  }

  method CopyLens(dst: array<CodeLen>, lit: array<CodeLen>, nl: nat, nd: nat)
    requires nl + nd <= lit.Length && nd <= dst.Length && lit != dst
    modifies dst
    ensures dst[..nd] == lit[nl..nl + nd]
  {
    for i := 0 to nd
      invariant dst[..i] == lit[nl..nl + i]
    {
      dst[i] := lit[nl + i];
    }
  }

  method ReadDynamic(br: Reader, lit: array<CodeLen>, dst: array<CodeLen>) returns (ok: bool, hl: Huff?, hd: Huff?)
    requires br.Valid() && lit.Length == 320 && dst.Length == 32 && lit != dst
    modifies br, lit, dst
    ensures br.Valid() && (ok ==> hl != null && hd != null && hl.Valid() && hd.Valid())
    ensures S.DynRes(ok, br.Pos(), if ok then hl.lens else [], if ok then hd.lens else [])
         == S.ReadDynamic(Stream(br.data), old(br.Pos()))
  {
    ghost var s, p := Stream(br.data), br.Pos();
    var nl := br.ReadBits(5);
    ghost var afterNl := br.Pos();
    var nd := br.ReadBits(5);
    S.DynamicCases(s, p, Res(nl, afterNl), Res(nd, br.Pos()), nl + 257, nd + 1);
    ok, hl, hd := DynamicTables(br, lit, dst, nl + 257, nd + 1);
  }

  /** Reads the lengths and, if that succeeds, builds the tables. */
  method DynamicTables(br: Reader, lit: array<CodeLen>, dst: array<CodeLen>, nl: nat, nd: nat)
    returns (ok: bool, hl: Huff?, hd: Huff?)
    requires br.Valid() && lit.Length == 320 && dst.Length == 32 && lit != dst && nl <= 288 && nd <= 32
    modifies br, lit, dst
    ensures br.Valid() && (ok ==> hl != null && hd != null && hl.Valid() && hd.Valid())
    ensures S.DynRes(ok, br.Pos(), if ok then hl.lens else [], if ok then hd.lens else [])
         == S.Vectors(S.ReadCodeLengths(Stream(br.data), old(br.Pos()), nl, nd), nl)
  {
    hl, hd := null, null;
    ok := ReadCodeLengths(br, lit, nl, nd);
    if !ok {
      return;
    }
    Halves(lit[..], lit[..nl + nd], nl, nd);
    hl, hd := BuildDynamic(lit, dst, nl, nd);
  }

  lemma Halves(c: seq<CodeLen>, both: seq<CodeLen>, nl: nat, nd: nat)
    requires nl + nd <= |c| && both == c[..nl + nd]
    ensures both[..nl] == c[..nl] && both[nl..] == c[nl..nl + nd]
  {
  }

  /** The rest of read_dynamic: the two tables from the lengths just read. */
  method BuildDynamic(lit: array<CodeLen>, dst: array<CodeLen>, nl: nat, nd: nat) returns (hl: Huff, hd: Huff)
    requires lit.Length == 320 && dst.Length == 32 && lit != dst && nl <= 288 && nd <= 32
    modifies dst
    ensures hl.Valid() && hd.Valid() && hl.lens == old(lit[..nl]) && hd.lens == old(lit[nl..nl + nd])
  {
    CopyLens(dst, lit, nl, nd);
    hl := new Huff(lit, nl);
    hd := new Huff(dst, nd);
  }

  method BuildFixed(lit: array<CodeLen>, dst: array<CodeLen>) returns (hl: Huff, hd: Huff)
    requires lit.Length == 320 && dst.Length == 32 && lit != dst
    modifies lit, dst
    ensures hl.Valid() && hd.Valid() && hl.lens == S.FixedLit() && hd.lens == S.FixedDist()
  {
    FixedHuff(lit, dst);
    hl := new Huff(lit, 288);
    hd := new Huff(dst, 32);
  }

  method GetLen(br: Reader, sym: nat) returns (len: int)
    requires br.Valid() && sym >= 257
    modifies br
    ensures br.Valid() && After(br, len) == S.GetLen(Stream(br.data), old(br.Pos()), sym)
  {
    var slot := sym - 257;
    if slot < 0 || slot >= 29 {
      return -1;
    }
    len := AddExtra(br, S.LEN_BASE[slot], S.LEN_EXTRA[slot]);
  }

  /** The end of get_len and get_dist: the extra bits on top of the base. */
  method AddExtra(br: Reader, base: nat, extra: nat) returns (v: int)
    requires br.Valid() && extra <= 16
    modifies br
    ensures br.Valid() && After(br, v) == S.AddExtra(Stream(br.data), old(br.Pos()), base, extra)
  {
    if extra <= 0 {
      return base;
    }
    var e := br.ReadBits(extra);
    if e < 0 {
      return -1;
    }
    return base + e;
  }

  method GetDist(br: Reader, hd: Huff) returns (dist: int)
    requires br.Valid() && hd.Valid()
    modifies br
    ensures br.Valid() && After(br, dist) == S.GetDist(Stream(br.data), old(br.Pos()), hd.lens)
  {
    var sym := hd.Decode(br);
    if sym < 0 {
      return -1;
    }
    if sym >= 30 {
      return 0;
    }
    dist := AddExtra(br, S.DIST_BASE[sym], S.DIST_EXTRA[sym]);
  }

  /** The byte-by-byte copy, which may read bytes it has itself written. */
  method CopyDist(out: Buf, length: int, distance: int) returns (ok: bool)
    requires out.Valid()
    modifies out, out.data
    ensures out.Valid() && (out.data == old(out.data) || fresh(out.data))
    ensures ok == S.CopyAccepted(old(out.Contents()), length, distance)
    ensures out.Contents() ==
      if ok then S.Copied(old(out.Contents()), length, distance) else old(out.Contents())
  {
    if length < 3 || length > 258 {
      return false;
    }
    if distance < 1 || distance > out.len {
      return false;
    }
    out.Grow(length);
    ghost var was := out.Contents();
    assert S.Copied(was, 0, distance) == was;
    for i := 0 to length
      invariant out.Valid() && |was| + length <= out.data.Length
      invariant out.data == old(out.data) || fresh(out.data)
      invariant out.Contents() == S.Copied(was, i, distance)
    {
      NextCopied(was, i, distance);
      CopyByte(out, distance);
    }
    return true;
  }

  method CopyByte(out: Buf, distance: nat)
    requires out.Valid() && 1 <= distance <= out.len < out.data.Length
    modifies out`len, out.data
    ensures out.Valid() && out.Contents() == old(out.Contents()) + [old(out.Contents())[old(out.len) - distance]]
  {
    out.data[out.len] := out.data[out.len - distance];
    out.len := out.len + 1;
  }

  /** The next byte of a copy is the one `distance` back, be it old or just copied. */
  lemma NextCopied(was: seq<Byte>, i: nat, distance: nat)
    requires 1 <= distance <= |was|
    ensures var c := S.Copied(was, i, distance);
      S.Copied(was, i + 1, distance) == c + [c[|c| - distance]]
  {
    CopySource(i, distance);
  }

  /** Byte i - distance of a copy is the same source byte as byte i. */
  lemma CopySource(i: nat, distance: nat)
    requires distance >= 1
    ensures i < distance ==> i % distance == i
    ensures i >= distance ==> (i - distance) % distance == i % distance
  {
    if i >= distance {
      Unique((i - distance) % distance, (i - distance) / distance + 1, i % distance, i / distance, distance);
    }
  }

  method DoSym(br: Reader, out: Buf, hd: Huff, sym: nat) returns (r: int)
    requires br.Valid() && out.Valid() && hd.Valid()
    requires {hd.firstCode, hd.firstIdx, hd.count, hd.symbols} !! {out.data as object}
    modifies br, out, out.data
    ensures br.Valid() && out.Valid() && (out.data == old(out.data) || fresh(out.data))
    ensures AfterOut(br, out, r) == S.DoSym(Stream(br.data), old(br.Pos()), old(out.Contents()), hd.lens, sym)
  {
    if sym < 256 {
      out.AppendByte(sym);
      return 0;
    }
    if sym > 256 {
      var length := GetLen(br, sym);
      if length < 0 {
        return -1;
      }
      var distance := GetDist(br, hd);
      if distance < 0 {
        return -1;
      }
      var ok := CopyDist(out, length, distance);
      return if ok then 0 else -1;
    }
    return 1;
  }

  method RunLoop(br: Reader, out: Buf, hl: Huff, hd: Huff, last: nat) returns (r: int)
    requires br.Valid() && out.Valid() && hl.Valid() && hd.Valid()
    modifies br, out, out.data
    ensures br.Valid() && out.Valid() && (out.data == old(out.data) || fresh(out.data))
    ensures AfterOut(br, out, r)
         == S.RunLoop(Stream(br.data), old(br.Pos()), old(out.Contents()), hl.lens, hd.lens, last)
  {
    ghost var s, p := Stream(br.data), br.Pos();
    ghost var want := S.RunLoop(s, p, out.Contents(), hl.lens, hd.lens, last);
    while true
      invariant br.Valid() && out.Valid() && hl.Valid() && hd.Valid()
      invariant out.data == old(out.data) || fresh(out.data)
      invariant p == br.Pos() && want == S.RunLoop(s, p, out.Contents(), hl.lens, hd.lens, last)
      decreases |s| - p
    {
      var sym := hl.Decode(br);
      if sym < 0 {
        return -1;
      }
      var ret := DoSym(br, out, hd, sym);
      if ret < 0 {
        return -1;
      }
      if ret > 0 {
        return last;
      }
      p := br.Pos();
    }
  }

  /** Inflates one block: -1 on failure, otherwise the block's "last block" bit. */
  method InflateBlock(br: Reader, out: Buf) returns (r: int)
    requires br.Valid() && out.Valid()
    modifies br, out, out.data
    ensures br.Valid() && out.Valid() && (out.data == old(out.data) || fresh(out.data))
    ensures AfterOut(br, out, r) == S.InflateBlock(Stream(br.data), old(br.Pos()), old(out.Contents()))
  {
    S.BlockCases(Stream(br.data), br.Pos(), out.Contents());
    var last := br.ReadBits(1);
    var kind := br.ReadBits(2);
    if kind < 0 || kind > 2 {
      return -1;
    }
    if kind == 0 {
      var ok := DecodeStored(br, out);
      return if ok != 0 then -1 else last;
    }
    var lit := new CodeLen[320](_ => 0);
    var dst := new CodeLen[32](_ => 0);
    if kind == 1 {
      var hl, hd := BuildFixed(lit, dst);
      r := RunLoop(br, out, hl, hd, last);
    } else {
      var ok, hl, hd := ReadDynamic(br, lit, dst);
      if !ok {
        return -1;
      }
      r := RunLoop(br, out, hl, hd, last);
    }
  }
}
