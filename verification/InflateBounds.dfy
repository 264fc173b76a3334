/** Limits on what inflation does with any input: how far it expands, and what happens when
    the input is cut short. */
module InflateBounds {
  import opened Bits
  import opened HuffmanCode
  import opened InflateSpec

  // --------------------------------------------------------------- expansion

  /** Output only grows, by at most 129 bytes for each bit consumed. */
  ghost predicate Bounded(p: nat, out: seq<Byte>, r: OutRes) {
    out <= r.out && p <= r.p && |r.out| - |out| <= 129 * (r.p - p)
  }

  lemma {:induction false} StoredBytesBounded(s: seq<bool>, p: nat, out: seq<Byte>, n: nat)
    requires p <= |s|
    ensures Bounded(p, out, StoredBytes(s, p, out, n))
    decreases n
  {
    if n == 0 || p + 8 > |s| {
    } else {
      ByteValue(s, p, 8);
      StoredBytesBounded(s, p + 8, out + [GetBits(s, p, 8).v], n - 1);
    }
  }

  lemma DoSymBounded(s: seq<bool>, p: nat, out: seq<Byte>, dl: seq<CodeLen>, sym: nat)
    requires p < |s|
    ensures Bounded(p, out, DoSym(s, p + 1, out, dl, sym))
  {
  }

  lemma {:induction false} RunLoopBounded(s: seq<bool>, p: nat, out: seq<Byte>,
                                          ll: seq<CodeLen>, dl: seq<CodeLen>, last: nat)
    requires p <= |s|
    ensures Bounded(p, out, RunLoop(s, p, out, ll, dl, last))
    decreases |s| - p
  {
    var d := Decode(ll, s, p);
    if d.v >= 0 {
      DoSymBounded(s, d.p - 1, out, dl, d.v);
      var r := DoSym(s, d.p, out, dl, d.v);
      if r.v == 0 {
        RunLoopBounded(s, r.p, r.out, ll, dl, last);
      }
    }
  }

  /** On every input, accepted or not, a block adds at most 129 bytes per input bit consumed. */
  lemma BlockBounded(s: seq<bool>, p: nat, out: seq<Byte>)
    requires p <= |s| && |s| % 8 == 0
    ensures Bounded(p, out, InflateBlock(s, p, out))
  {
    var last := GetBits(s, p, 1);
    var kind := GetBits(s, last.p, 2);
    BlockCases(s, p, out);
    if kind.v == 0 {
      StoredBounded(s, kind.p, out);
    } else if kind.v == 1 {
      RunLoopBounded(s, kind.p, out, FixedLit(), FixedDist(), last.v);
    } else if kind.v == 2 {
      var d := ReadDynamic(s, kind.p);
      if d.ok { RunLoopBounded(s, d.p, out, d.ll, d.dl, last.v); }
    }
  }

  lemma StoredBounded(s: seq<bool>, p: nat, out: seq<Byte>)
    requires p <= |s| && |s| % 8 == 0
    ensures Bounded(p, out, DecodeStored(s, p, out))
  {
    var a := (p + 7) / 8 * 8;
    var len := GetBits(s, a, 16);
    var nlen := GetBits(s, len.p, 16);
    if len.v >= 0 {
      StoredFrom(s, p, out, a, len, nlen);
      StoredBytesBounded(s, nlen.p, out, len.v);
    }
  }

  /** Whatever a byte string inflates to, it is at most 1032 times as long. */
  lemma {:induction false} InflateBounded(data: seq<Byte>, p: nat, out: seq<Byte>)
    requires p <= 8 * |data|
    ensures var r := InflateAll(Stream(data), p, out);
      Bounded(p, out, r) && |r.out| - |out| <= 1032 * |data|
    decreases 8 * |data| - p
  {
    var s := Stream(data);
    BlockBounded(s, p, out);
    var r := InflateBlock(s, p, out);
    AllStep(s, p, out, r);
    if r.v == 0 {
      InflateBounded(data, r.p, r.out);
    }
  }

  // -------------------------------------------------------------- truncation

  /** s' is s cut short. */
  ghost predicate Cut(s': seq<bool>, s: seq<bool>) {
    |s'| <= |s| && forall i {:trigger s'[i]} :: 0 <= i < |s'| ==> s'[i] == s[i]
  }

  lemma {:induction false} CutValue(s': seq<bool>, s: seq<bool>, p: nat, n: nat)
    requires Cut(s', s) && p + n <= |s'|
    ensures Value(s', p, n) == Value(s, p, n)
    decreases n
  {
    if n == 0 {
    } else {
      CutValue(s', s, p + 1, n - 1);
    }
  }

  lemma CutBits(s': seq<bool>, s: seq<bool>, p: nat, n: nat)
    requires Cut(s', s) && p <= |s'|
    ensures GetBits(s', p, n).v >= 0 ==> GetBits(s', p, n) == GetBits(s, p, n)
  {
    if p + n <= |s'| { CutValue(s', s, p, n); }
  }

  lemma {:induction false} CutDecodeFrom(s': seq<bool>, s: seq<bool>, lens: seq<CodeLen>, p: nat, b: nat, code: nat)
    requires Cut(s', s) && p <= |s'| && 1 <= b <= 16 && Used(lens, b - 1) <= code
    ensures DecodeFrom(lens, s', p, b, code).v >= 0 ==>
      DecodeFrom(lens, s', p, b, code) == DecodeFrom(lens, s, p, b, code)
    decreases 16 - b
  {
    if b < 16 && p < |s'| {
      var c := 2 * code + BitValue(s'[p]);
      if c >= Used(lens, b) { CutDecodeFrom(s', s, lens, p + 1, b + 1, c); }
    }
  }

  lemma CutDecode(s': seq<bool>, s: seq<bool>, lens: seq<CodeLen>, p: nat)
    requires Cut(s', s) && p <= |s'|
    ensures Decode(lens, s', p).v >= 0 ==> Decode(lens, s', p) == Decode(lens, s, p)
  {
    CutDecodeFrom(s', s, lens, p, 1, 0);
  }

  lemma CutDoSym(s': seq<bool>, s: seq<bool>, p: nat, out: seq<Byte>, dl: seq<CodeLen>, sym: nat)
    requires Cut(s', s) && p <= |s'|
    ensures DoSym(s', p, out, dl, sym).v >= 0 ==> DoSym(s', p, out, dl, sym) == DoSym(s, p, out, dl, sym)
  {
    if sym > 256 && sym - 257 < 29 {
      CutBits(s', s, p, LEN_EXTRA[sym - 257]);
      var length := GetLen(s', p, sym);
      if length.v >= 0 { CutGetDist(s', s, length.p, dl); }
    }
  }

  lemma CutGetDist(s': seq<bool>, s: seq<bool>, p: nat, dl: seq<CodeLen>)
    requires Cut(s', s) && p <= |s'|
    ensures GetDist(s', p, dl).v >= 0 ==> GetDist(s', p, dl) == GetDist(s, p, dl)
  {
    CutDecode(s', s, dl, p);
    var d := Decode(dl, s', p);
    if 0 <= d.v < 30 { CutBits(s', s, d.p, DIST_EXTRA[d.v]); }
  }

  lemma {:induction false} CutRunLoop(s': seq<bool>, s: seq<bool>, p: nat, out: seq<Byte>,
                                      ll: seq<CodeLen>, dl: seq<CodeLen>, last: nat)
    requires Cut(s', s) && p <= |s'| && RunLoop(s', p, out, ll, dl, last).v >= 0
    ensures RunLoop(s', p, out, ll, dl, last) == RunLoop(s, p, out, ll, dl, last)
    decreases |s'| - p
  {
    var d := Decode(ll, s', p);
    CutDecode(s', s, ll, p);
    CutDoSym(s', s, d.p, out, dl, d.v);
    var r := DoSym(s', d.p, out, dl, d.v);
    if r.v == 0 {
      LoopStep(s', p, out, ll, dl, last, d, r);
      LoopStep(s, p, out, ll, dl, last, d, r);
      CutRunLoop(s', s, r.p, r.out, ll, dl, last);
    }
  }

  lemma CutRepLen(s': seq<bool>, s: seq<bool>, p: nat, acc: seq<CodeLen>, total: nat, sym: nat)
    requires Cut(s', s) && p <= |s'| && |acc| <= total && 16 <= sym <= 18
    ensures RepLen(s', p, acc, total, sym).ok ==> RepLen(s', p, acc, total, sym) == RepLen(s, p, acc, total, sym)
  {
    CutBits(s', s, p, 2);
    CutBits(s', s, p, 3);
    CutBits(s', s, p, 7);
  }

  lemma {:induction false} CutDecodeLens(s': seq<bool>, s: seq<bool>, p: nat,
                                         cl: seq<CodeLen>, acc: seq<CodeLen>, total: nat)
    requires Cut(s', s) && p <= |s'| && |acc| <= total && |cl| == 19 && DecodeLens(s', p, cl, acc, total).ok
    ensures DecodeLens(s', p, cl, acc, total) == DecodeLens(s, p, cl, acc, total)
    decreases |s'| - p
  {
    if |acc| < total {
      var d := Decode(cl, s', p);
      CutDecode(s', s, cl, p);
      if d.v < 16 {
        LensStepLen(s, p, cl, acc, total, d);
        CutDecodeLens(s', s, d.p, cl, acc + [d.v], total);
      } else {
        var r := RepLen(s', d.p, acc, total, d.v);
        CutRepLen(s', s, d.p, acc, total, d.v);
        LensStepRun(s, p, cl, acc, total, d, r);
        CutDecodeLens(s', s, r.p, cl, r.lens, total);
      }
    }
  }

  lemma {:induction false} CutReadClLens(s': seq<bool>, s: seq<bool>, p: nat, i: nat, nc: nat, cl: seq<CodeLen>)
    requires Cut(s', s) && p <= |s'| && i <= nc <= 19 && |cl| == 19 && ReadClLens(s', p, i, nc, cl).ok
    ensures ReadClLens(s', p, i, nc, cl) == ReadClLens(s, p, i, nc, cl)
    ensures ReadClLens(s, p, i, nc, cl).p == p + 3 * (nc - i) <= |s'|
    decreases nc - i
  {
    if i >= nc {
    } else {
      var q := p + 3;
      CutBits(s', s, p, 3);
      ClValue(s, p, 3);
      CutReadClLens(s', s, q, i + 1, nc, cl[ClOrd(i) := Value(s, p, 3)]);
    }
  }

  /** The unchecked read of the number of lengths does no harm: when it fails, so do the lengths. */
  lemma CodeLengthsNeed(s: seq<bool>, p: nat, nl: nat, nd: nat)
    requires p <= |s| && ReadCodeLengths(s, p, nl, nd).ok
    ensures p + 16 <= |s| && 0 <= GetBits(s, p, 4).v <= 15
  {
    var nc := GetBits(s, p, 4);
    var n := nc.v + 4;
    CodeLengthsCases(s, p, nl, nd);
    CutReadClLens(s, s, nc.p, 0, n, NoClLens());
  }

  lemma CutReadCodeLengths(s': seq<bool>, s: seq<bool>, p: nat, nl: nat, nd: nat)
    requires Cut(s', s) && p <= |s'| && ReadCodeLengths(s', p, nl, nd).ok
    ensures ReadCodeLengths(s', p, nl, nd) == ReadCodeLengths(s, p, nl, nd)
  {
    var total := nl + nd;
    CodeLengthsNeed(s', p, nl, nd);
    var nc := GetBits(s', p, 4);
    var n := nc.v + 4;
    CutBits(s', s, p, 4);
    CodeLengthsCases(s', p, nl, nd);
    var cl := ReadClLens(s', nc.p, 0, n, NoClLens());
    CutReadClLens(s', s, nc.p, 0, n, NoClLens());
    var r := DecodeLens(s', cl.p, cl.lens, [], total);
    CutDecodeLens(s', s, cl.p, cl.lens, [], total);
    CodeLengthsFrom(s, p, nl, nd, nc, n, total, cl, r);
  }

  lemma CutReadDynamic(s': seq<bool>, s: seq<bool>, p: nat)
    requires Cut(s', s) && p <= |s'| && ReadDynamic(s', p).ok
    ensures ReadDynamic(s', p) == ReadDynamic(s, p)
  {
    var nl := GetBits(s', p, 5);
    var nd := GetBits(s', nl.p, 5);
    var n, m := nl.v + 257, nd.v + 1;
    DynamicCases(s', p, nl, nd, n, m);
    CodeLengthsNeed(s', nd.p, n, m);
    CutReadCodeLengths(s', s, nd.p, n, m);
    CutBits(s', s, p, 5);
    CutBits(s', s, nl.p, 5);
    DynamicCases(s, p, nl, nd, n, m);
  }

  /** The kind of the block at p: 0 stored, 1 fixed, 2 dynamic. */
  function BlockKind(s: seq<bool>, p: nat): int
    requires p <= |s|
  {
    GetBits(s, GetBits(s, p, 1).p, 2).v
  }

  /** If a cut fixed or dynamic block is accepted at all, the cut was behind its last bit. */
  lemma CutBlock(s': seq<bool>, s: seq<bool>, p: nat, out: seq<Byte>)
    requires Cut(s', s) && p <= |s'| && |s'| % 8 == 0 && |s| % 8 == 0
    requires BlockKind(s', p) != 0 && InflateBlock(s', p, out).v >= 0
    ensures InflateBlock(s', p, out) == InflateBlock(s, p, out)
  {
    BlockCases(s', p, out);
    BlockCases(s, p, out);
    var last := GetBits(s', p, 1);
    CutBits(s', s, p, 1);
    CutBits(s', s, last.p, 2);
    var kind := GetBits(s', last.p, 2);
    if kind.v == 1 {
      CutRunLoop(s', s, kind.p, out, FixedLit(), FixedDist(), last.v);
    } else {
      CutReadDynamic(s', s, kind.p);
      var d := ReadDynamic(s', kind.p);
      CutRunLoop(s', s, d.p, out, d.ll, d.dl, last.v);
    }
  }

  /** A fixed or dynamic block cut at any byte before its last consumed bit is rejected. */
  lemma TruncationRejected(s': seq<bool>, s: seq<bool>, p: nat, out: seq<Byte>)
    requires Cut(s', s) && p <= |s'| && |s'| % 8 == 0 && |s| % 8 == 0
    requires BlockKind(s, p) != 0 && |s'| < InflateBlock(s, p, out).p
    ensures InflateBlock(s', p, out).v == -1
  {
    if InflateBlock(s', p, out).v >= 0 {
      BlockCases(s', p, out);
      CutBits(s', s, p, 1);
      CutBits(s', s, GetBits(s', p, 1).p, 2);
      CutBlock(s', s, p, out);
    }
  }

  /** Cutting a byte string cuts its bits at a multiple of 8. */
  lemma CutStream(data: seq<Byte>, k: nat)
    requires k <= |data|
    ensures Cut(Stream(data[..k]), Stream(data)) && |Stream(data[..k])| == 8 * k
    ensures |Stream(data[..k])| % 8 == 0 && |Stream(data)| % 8 == 0
  {
    StreamPrefix(data, k);
  }

  // ------------------------------------------------- truncated stored blocks

  lemma {:induction false} StoredBytesNeed(s: seq<bool>, p: nat, out: seq<Byte>, n: nat)
    requires p <= |s|
    ensures StoredBytes(s, p, out, n).v == 0 <==> p + 8 * n <= |s|
    decreases n
  {
    if n == 0 || p + 8 > |s| {
    } else {
      ByteValue(s, p, 8);
      StoredBytesNeed(s, p + 8, out + [GetBits(s, p, 8).v], n - 1);
    }
  }

  /** Stored data is different. Its length is at the boundary a. A missing NLEN goes unnoticed, so
      the data is accepted exactly when the length is there and, behind NLEN if NLEN is there and
      in its place if not, as many bytes as it says. */
  lemma StoredAccepted(s: seq<bool>, p: nat, out: seq<Byte>, a: nat)
    requires p <= |s| && |s| % 8 == 0 && a == (p + 7) / 8 * 8
    ensures DecodeStored(s, p, out).v == 0 <==>
      a + 16 <= |s|
      && (if a + 32 <= |s| then a + 32 else a + 16) + 8 * Value(s, a, 16) <= |s|
  {
    var len := GetBits(s, a, 16);
    var nlen := GetBits(s, len.p, 16);
    if len.v >= 0 {
      StoredFrom(s, p, out, a, len, nlen);
      StoredBytesNeed(s, nlen.p, out, len.v);
    }
  }

  /** So a stored block that is accepted whole can be cut to k bytes before its end and still be
      accepted if and only if the cut falls within NLEN and leaves room for the data in its place:
      that concerns blocks of at most one byte. */
  lemma StoredTruncation(data: seq<Byte>, k: nat, p: nat, out: seq<Byte>, a: nat)
    requires k <= |data| && p <= 8 * k && a == (p + 7) / 8 * 8
    requires a + 32 <= 8 * |data| && DecodeStored(Stream(data), p, out).v == 0
    requires 8 * k < DecodeStored(Stream(data), p, out).p
    ensures DecodeStored(Stream(data[..k]), p, out).v == 0 <==>
      a + 16 + 8 * Value(Stream(data), a, 16) <= 8 * k < a + 32
    ensures DecodeStored(Stream(data[..k]), p, out).v == 0 ==> Value(Stream(data), a, 16) <= 1
  {
    var s, s' := Stream(data), Stream(data[..k]);
    CutStream(data, k);
    StoredAccepted(s, p, out, a);
    StoredAccepted(s', p, out, a);
    var len := GetBits(s, a, 16);
    StoredFrom(s, p, out, a, len, GetBits(s, len.p, 16));
    StoredEnd(s, a + 32, out, len.v);
    if a + 16 <= 8 * k { CutValue(s', s, a, 16); }
  }

  lemma {:induction false} StoredEnd(s: seq<bool>, p: nat, out: seq<Byte>, n: nat)
    requires p <= |s|
    ensures StoredBytes(s, p, out, n).v == 0 ==> StoredBytes(s, p, out, n).p == p + 8 * n
    decreases n
  {
    if n == 0 || p + 8 > |s| {
    } else {
      ByteValue(s, p, 8);
      StoredEnd(s, p + 8, out + [GetBits(s, p, 8).v], n - 1);
    }
  }
}
