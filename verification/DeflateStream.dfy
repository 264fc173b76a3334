/** Blocks and whole DEFLATE streams: inflating an encoding gives back what it denotes. */
module DeflateStream {
  import opened Arith
  import opened Bits
  import opened HuffmanCode
  import opened InflateSpec
  import opened DeflateEncoder

  // ---------------------------------------------------------- the fixed codes

  function Same(l: CodeLen, n: nat): (r: seq<CodeLen>)
    ensures |r| == n
  {
    seq(n, _ => l)
  }

  lemma KraftSame(lens: seq<CodeLen>, l: CodeLen, n: nat)
    requires l > 0
    ensures Kraft(lens + Same(l, n)) == Kraft(lens) + n * Pow2(15 - l)
  {
    KraftOfSame(lens, l, n, Pow2(15 - l));
  }

  lemma {:induction false} KraftOfSame(lens: seq<CodeLen>, l: CodeLen, n: nat, x: nat)
    requires l > 0 && x == Pow2(15 - l)
    ensures Kraft(lens + Same(l, n)) == Kraft(lens) + n * x
  {
    if n == 0 {
      assert lens + Same(l, n) == lens;
    } else {
      KraftOfSame(lens, l, n - 1, x);
      var shorter := lens + Same(l, n - 1);
      assert lens + Same(l, n) == shorter + [l];
      KraftSnoc(shorter, l);
      MulNext(n - 1, x);
    }
  }

  lemma KraftSnoc(lens: seq<CodeLen>, l: CodeLen)
    requires l > 0
    ensures Kraft(lens + [l]) == Kraft(lens) + Pow2(15 - l)
  {
    assert (lens + [l])[..|lens|] == lens;
  }

  /** The fixed literal/length and distance codes of section 3.2.6 are complete prefix codes. */
  lemma FixedPrefixed()
    ensures Prefixed(FixedLit()) && Prefixed(FixedDist())
    ensures Kraft(FixedLit()) == Kraft(FixedDist()) == Pow2(15)
  {
    FixedLitParts();
    FixedDistPrefixed();
    var a := [] + Same(8, 144);
    var b := a + Same(9, 112);
    var c := b + Same(7, 24);
    KraftSame([], 8, 144);
    KraftSame(a, 9, 112);
    KraftSame(b, 7, 24);
    KraftSame(c, 8, 8);
  }

  lemma FixedLitParts()
    ensures FixedLit() == [] + Same(8, 144) + Same(9, 112) + Same(7, 24) + Same(8, 8)
  {
  }

  lemma FixedDistPrefixed()
    ensures Kraft(FixedDist()) == Pow2(15)
  {
    assert [] + Same(5, 32) == FixedDist();
    KraftSame([], 5, 32);
  }

  // The table of section 3.2.6.
  function FixedWord(i: nat): nat {
    if i < 144 then 48 + i else if i < 256 then 400 + (i - 144) else if i < 280 then i - 256 else 192 + (i - 280)
  }

  /** The symbol whose fixed codeword comes before that of i. */
  function FixedBefore(i: nat): nat {
    if i == 0 then 279 else if i == 144 then 287 else if i == 280 then 143 else i - 1
  }

  /** The fixed codewords of literals and lengths are those of that table. */
  lemma {:induction false} FixedCodeword(i: nat)
    requires i < 288
    ensures FixedLit()[i] == (if i < 144 || i >= 280 then 8 else if i < 256 then 9 else 7)
    ensures Codeword(FixedLit(), i) == FixedWord(i)
    decreases FixedWord(i) * if FixedLit()[i] == 7 then 1 else if FixedLit()[i] == 8 then 10 else 100
  {
    if i == 256 {
      FirstCodeword(FixedLit(), i);
    } else {
      var h := FixedBefore(i);
      FixedCodeword(h);
      NextCodeword(FixedLit(), h, i);
      assert Pow2(0) == 1 && Pow2(1) == 2;
    }
  }

  /** Those of distances are the symbols in five bits. */
  lemma {:induction false} FixedDistance(i: nat)
    requires i < 32
    ensures FixedDist()[i] == 5 && Codeword(FixedDist(), i) == i
  {
    if i == 0 {
      FirstCodeword(FixedDist(), i);
    } else {
      FixedDistance(i - 1);
      NextCodeword(FixedDist(), i - 1, i);
      assert Pow2(0) == 1;
    }
  }

  /** Every token has a fixed code. */
  lemma FixedCoded(ts: seq<Token>, out: seq<Byte>)
    requires TokensWf(ts, out)
    ensures TokensCoded(ts, FixedLit(), FixedDist())
    decreases |ts|
  {
    if ts == [] {
    } else {
      FixedCoded(ts[1..], Apply(ts[0], out));
      OneFixedCoded(ts[0]);
      CodedCons(ts, FixedLit(), FixedDist());
    }
  }

  lemma OneFixedCoded(t: Token)
    requires Wf(t)
    ensures TokenCoded(t, FixedLit(), FixedDist())
  {
  }

  lemma CodedCons(ts: seq<Token>, ll: seq<CodeLen>, dl: seq<CodeLen>)
    requires ts != [] && TokenCoded(ts[0], ll, dl) && TokensCoded(ts[1..], ll, dl)
    ensures TokensCoded(ts, ll, dl)
  {
    forall t | t in ts ensures TokenCoded(t, ll, dl) {
      assert t == ts[0] || t in ts[1..];
    }
  }

  // --------------------------------------------------------- every dynamic code

  /** Lengths sent one by one, without runs. */
  function Plain(lens: seq<CodeLen>): seq<Item> {
    if lens == [] then [] else [Len(lens[0])] + Plain(lens[1..])
  }

  lemma ItemsCons(it: Item, rest: seq<Item>, all: seq<Item>, acc: seq<CodeLen>, next: seq<CodeLen>)
    requires all == [it] + rest && ItemWf(it, acc) && next == ExpandItem(it, acc) && ItemsWf(rest, next)
    ensures ItemsWf(all, acc) && Expand(all, acc) == Expand(rest, next)
  {
    assert all[1..] == rest;
  }

  lemma {:induction false} PlainExpands(lens: seq<CodeLen>, acc: seq<CodeLen>, all: seq<CodeLen>)
    requires all == acc + lens
    ensures ItemsWf(Plain(lens), acc) && Expand(Plain(lens), acc) == all
    decreases |lens|
  {
    if lens == [] {
      assert all == acc;
    } else {
      var next := acc + [lens[0]];
      assert all == next + lens[1..];
      PlainExpands(lens[1..], next, all);
      ItemsCons(Len(lens[0]), Plain(lens[1..]), Plain(lens), acc, next);
    }
  }

  lemma {:induction false} PlainHasNoRuns(lens: seq<CodeLen>)
    ensures forall it :: it in Plain(lens) ==> it.Len?
  {
    if lens == [] {
    } else {
      PlainHasNoRuns(lens[1..]);
    }
  }

  /** Four bits for each of the sixteen lengths and none for the runs. */
  function FlatCode(): (r: seq<CodeLen>)
    ensures |r| == 19 && forall k :: 0 <= k < 19 ==> r[k] == if k < 16 then 4 else 0
  {
    Same(4, 16) + Same(0, 3)
  }

  lemma {:induction false} KraftUnused(lens: seq<CodeLen>, n: nat)
    ensures Kraft(lens + Same(0, n)) == Kraft(lens)
  {
    if n == 0 {
      assert lens + Same(0, n) == lens;
    } else {
      KraftUnused(lens, n - 1);
      var shorter := lens + Same(0, n - 1);
      assert lens + Same(0, n) == shorter + [0];
      assert (shorter + [0])[..|shorter|] == shorter;
    }
  }

  lemma FlatPrefixed()
    ensures Prefixed(FlatCode())
  {
    KraftUnused(Same(4, 16), 3);
    KraftSame([], 4, 16);
    assert [] + Same(4, 16) == Same(4, 16);
  }

  /** Any two length vectors can be sent in a dynamic header. */
  lemma EveryHeader(ll: seq<CodeLen>, dl: seq<CodeLen>) returns (h: Header)
    requires 257 <= |ll| <= 288 && 1 <= |dl| <= 32
    ensures HeaderWf(h) && h.ll == ll && h.dl == dl
  {
    h := Header(ll, dl, 19, FlatCode(), Plain(ll + dl));
    PlainExpands(ll + dl, [], ll + dl);
    PlainHasNoRuns(ll + dl);
    FlatPrefixed();
  }

  // ------------------------------------------------------------------ blocks

  /** `pad` is the bits skipped before a stored block's length; any bits will do. */
  datatype Block =
    | StoredBlock(bytes: seq<Byte>, pad: seq<bool>)
    | FixedBlock(ts: seq<Token>)
    | DynamicBlock(h: Header, ts: seq<Token>)

  function PadLen(p: nat): nat {
    (p + 7) / 8 * 8 - p
  }

  /** b's body can be written at p, after the output so far. */
  ghost predicate BlockWf(b: Block, p: nat, out: seq<Byte>) {
    match b
    case StoredBlock(bytes, pad) => |bytes| < Pow2(16) && |pad| == PadLen(p)
    case FixedBlock(ts) => TokensWf(ts, out)
    case DynamicBlock(h, ts) =>
      HeaderWf(h) && Prefixed(h.ll) && Prefixed(h.dl) && TokensWf(ts, out) && TokensCoded(ts, h.ll, h.dl)
  }

  /** The output after the block. */
  ghost function BlockDenote(b: Block, p: nat, out: seq<Byte>): seq<Byte>
    requires BlockWf(b, p, out)
  {
    match b
    case StoredBlock(bytes, _) => out + bytes
    case FixedBlock(ts) => Denote(ts, out)
    case DynamicBlock(_, ts) => Denote(ts, out)
  }

  function Kind(b: Block): (k: nat)
    ensures k <= 2
  {
    match b
    case StoredBlock(_, _) => 0
    case FixedBlock(_) => 1
    case DynamicBlock(_, _) => 2
  }

  function EncodeStored(bytes: seq<Byte>): seq<bool>
    requires |bytes| < Pow2(16)
  {
    LsbFirst(|bytes|, 16) + (LsbFirst(Pow2(16) - 1 - |bytes|, 16) + Stream(bytes))
  }

  ghost function EncodeBody(b: Block, p: nat, out: seq<Byte>): seq<bool>
    requires BlockWf(b, p, out)
  {
    match b
    case StoredBlock(bytes, pad) => pad + EncodeStored(bytes)
    case FixedBlock(ts) =>
      FixedCoded(ts, out);
      EncodeTokens(ts, out, FixedLit(), FixedDist())
    case DynamicBlock(h, ts) => EncodeHeader(h) + EncodeTokens(ts, out, h.ll, h.dl)
  }

  /** Where the body of a block that starts at p starts. */
  function Body(p: nat): nat {
    p + 3
  }

  ghost function EncodeBlock(b: Block, last: nat, p: nat, out: seq<Byte>): (e: seq<bool>)
    requires last < 2 && BlockWf(b, Body(p), out)
    ensures |e| == 3 + |EncodeBody(b, Body(p), out)|
  {
    LsbFirst(last, 1) + (LsbFirst(Kind(b), 2) + EncodeBody(b, Body(p), out))
  }

  /** Where a block that starts at p ends. */
  ghost function BlockEnd(b: Block, p: nat, out: seq<Byte>): nat
    requires BlockWf(b, Body(p), out)
  {
    Body(p) + |EncodeBody(b, Body(p), out)|
  }

  lemma {:induction false} StoredBytesInverts(s: seq<bool>, p: nat, q: nat, bytes: seq<Byte>, out: seq<Byte>, n: nat)
    requires n == |bytes| && Span(s, p, q, Stream(bytes))
    ensures StoredBytes(s, p, out, n) == OutRes(0, q, out + bytes)
    decreases n
  {
    if n == 0 {
      assert out + bytes == out;
    } else {
      var m := SpanSplit(s, p, q, LsbFirst(bytes[0], 8), Stream(bytes[1..]));
      Pow2Eight(8);
      ReadsNumber(s, p, m, bytes[0], 8);
      StoredBytesInverts(s, m, q, bytes[1..], out + [bytes[0]], n - 1);
      assert out + [bytes[0]] + bytes[1..] == out + bytes;
    }
  }

  lemma StoredInverts(s: seq<bool>, p: nat, q: nat, bytes: seq<Byte>, pad: seq<bool>, out: seq<Byte>)
    requires |s| % 8 == 0 && |bytes| < Pow2(16) && |pad| == PadLen(p)
    requires Span(s, p, q, pad + EncodeStored(bytes))
    ensures DecodeStored(s, p, out) == OutRes(0, q, out + bytes)
  {
    var a := SpanSplit(s, p, q, pad, EncodeStored(bytes));
    StoredFromBoundary(s, p, a, q, bytes, out);
  }

  lemma StoredFromBoundary(s: seq<bool>, p: nat, a: nat, q: nat, bytes: seq<Byte>, out: seq<Byte>)
    requires |s| % 8 == 0 && |bytes| < Pow2(16) && p <= |s| && a == p + PadLen(p)
    requires Span(s, a, q, EncodeStored(bytes))
    ensures DecodeStored(s, p, out) == OutRes(0, q, out + bytes)
  {
    Boundary(p, a);
    var n, nlen := StoredParts(bytes);
    StoredPartsInvert(s, a, q, bytes, n, nlen, out, p);
  }

  /** The length, its complement, and the bytes. */
  lemma StoredParts(bytes: seq<Byte>) returns (n: nat, nlen: nat)
    requires |bytes| < Pow2(16)
    ensures n == |bytes| && nlen < Pow2(16)
    ensures EncodeStored(bytes) == LsbFirst(n, 16) + (LsbFirst(nlen, 16) + Stream(bytes))
  {
    n, nlen := |bytes|, Pow2(16) - 1 - |bytes|;
  }

  lemma Boundary(p: nat, a: nat)
    requires a == p + PadLen(p)
    ensures a == (p + 7) / 8 * 8
  {
  }

  lemma StoredPartsInvert(s: seq<bool>, a: nat, q: nat, bytes: seq<Byte>, n: nat, nlen: nat, out: seq<Byte>, p: nat)
    requires |s| % 8 == 0 && p <= |s| && a == (p + 7) / 8 * 8 && n == |bytes| && n < Pow2(16) && nlen < Pow2(16)
    requires Span(s, a, q, LsbFirst(n, 16) + (LsbFirst(nlen, 16) + Stream(bytes)))
    ensures DecodeStored(s, p, out) == OutRes(0, q, out + bytes)
  {
    var m0 := SpanSplit(s, a, q, LsbFirst(n, 16), LsbFirst(nlen, 16) + Stream(bytes));
    var m1 := SpanSplit(s, m0, q, LsbFirst(nlen, 16), Stream(bytes));
    ReadsNumber(s, a, m0, n, 16);
    ReadsNumber(s, m0, m1, nlen, 16);
    StoredBytesInverts(s, m1, q, bytes, out, n);
    StoredFrom(s, p, out, a, Res(n, m0), Res(nlen, m1));
  }

  lemma BodyInverts(s: seq<bool>, p: nat, q: nat, b: Block, out: seq<Byte>, last: nat)
    requires |s| % 8 == 0 && BlockWf(b, p, out) && Span(s, p, q, EncodeBody(b, p, out))
    ensures match b
      case StoredBlock(_, _) => DecodeStored(s, p, out) == OutRes(0, q, BlockDenote(b, p, out))
      case FixedBlock(_) =>
        RunLoop(s, p, out, FixedLit(), FixedDist(), last) == OutRes(last, q, BlockDenote(b, p, out))
      case DynamicBlock(h, _) =>
        var d := ReadDynamic(s, p);
        d.ok && RunLoop(s, d.p, out, d.ll, d.dl, last) == OutRes(last, q, BlockDenote(b, p, out))
  {
    match b
    case StoredBlock(bytes, pad) => StoredInverts(s, p, q, bytes, pad, out);
    case FixedBlock(ts) =>
      FixedPrefixed();
      FixedCoded(ts, out);
      RunLoopInverts(s, p, q, out, ts, FixedLit(), FixedDist(), last);
    case DynamicBlock(h, ts) =>
      var m := SpanSplit(s, p, q, EncodeHeader(h), EncodeTokens(ts, out, h.ll, h.dl));
      ReadDynamicInverts(s, p, m, h);
      RunLoopInverts(s, m, q, out, ts, h.ll, h.dl, last);
  }

  /** Inflating an encoded block appends exactly the bytes it denotes and stops at its end. */
  lemma BlockInverts(s: seq<bool>, p: nat, q: nat, b: Block, last: nat, out: seq<Byte>)
    requires p <= |s| && |s| % 8 == 0 && last < 2 && BlockWf(b, Body(p), out)
    requires Span(s, p, q, EncodeBlock(b, last, p, out))
    ensures InflateBlock(s, p, out) == OutRes(last, q, BlockDenote(b, Body(p), out))
  {
    var a, kind := Body(p), Kind(b);
    var body := EncodeBody(b, a, out);
    var m := HeaderInverts(s, p, q, last, kind, body);
    BodyInverts(s, a, q, b, out, last);
    BlockFrom(s, p, out, Res(last, m), Res(kind, a), OutRes(last, q, BlockDenote(b, a, out)));
  }

  /** The first bit marks the last block; the next two, low bit first, are 0 for a stored block, 1
      for fixed and 2 for dynamic codes (section 3.2.3). */
  lemma HeaderBits(b: Block, last: nat, p: nat, out: seq<Byte>)
    requires last < 2 && BlockWf(b, Body(p), out)
    ensures EncodeBlock(b, last, p, out)[..3] == [last == 1, b.FixedBlock?, b.DynamicBlock?]
  {
    ThreeBits(last, Kind(b), EncodeBody(b, Body(p), out));
  }

  lemma ThreeBits(last: nat, kind: nat, body: seq<bool>)
    requires last < 2 && kind < 3
    ensures (LsbFirst(last, 1) + (LsbFirst(kind, 2) + body))[..3] == [last == 1, kind == 1, kind == 2]
  {
    assert LsbFirst(last, 1) == [last == 1];
    assert LsbFirst(kind, 2) == [kind % 2 == 1] + LsbFirst(kind / 2, 1);
    assert LsbFirst(kind / 2, 1) == [kind / 2 % 2 == 1];
  }

  /** The three bits in front of a block, and where its body is. */
  lemma HeaderInverts(s: seq<bool>, p: nat, q: nat, last: nat, kind: nat, body: seq<bool>) returns (m: nat)
    requires p <= |s| && last < 2 && kind < 3 && Span(s, p, q, LsbFirst(last, 1) + (LsbFirst(kind, 2) + body))
    ensures m <= |s| && GetBits(s, p, 1) == Res(last, m) && GetBits(s, m, 2) == Res(kind, Body(p))
    ensures Span(s, Body(p), q, body)
  {
    m := SpanSplit(s, p, q, LsbFirst(last, 1), LsbFirst(kind, 2) + body);
    var a := SpanSplit(s, m, q, LsbFirst(kind, 2), body);
    ReadsNumber(s, p, m, last, 1);
    ReadsNumber(s, m, a, kind, 2);
  }

  // ------------------------------------------------------------------ streams

  ghost predicate StreamWf(bs: seq<Block>, p: nat, out: seq<Byte>)
    decreases |bs|
  {
    && bs != [] && BlockWf(bs[0], Body(p), out)
    && (|bs| > 1 ==> StreamWf(bs[1..], BlockEnd(bs[0], p, out), BlockDenote(bs[0], Body(p), out)))
  }

  /** Blocks one after the other, the last one marked. */
  ghost function EncodeStream(bs: seq<Block>, p: nat, out: seq<Byte>): seq<bool>
    requires StreamWf(bs, p, out)
    decreases |bs|
  {
    if |bs| == 1 then EncodeBlock(bs[0], 1, p, out)
    else
      EncodeBlock(bs[0], 0, p, out)
      + EncodeStream(bs[1..], BlockEnd(bs[0], p, out), BlockDenote(bs[0], Body(p), out))
  }

  lemma StreamNonEmpty(bs: seq<Block>, p: nat, out: seq<Byte>)
    requires StreamWf(bs, p, out)
    ensures EncodeStream(bs, p, out) != []
  {
    if |bs| > 1 { assert |EncodeBlock(bs[0], 0, p, out)| >= 3; }
  }

  ghost function StreamDenote(bs: seq<Block>, p: nat, out: seq<Byte>): seq<Byte>
    requires StreamWf(bs, p, out)
    decreases |bs|
  {
    var next := BlockDenote(bs[0], Body(p), out);
    if |bs| == 1 then next else StreamDenote(bs[1..], BlockEnd(bs[0], p, out), next)
  }

  /** Inflation inverts the encoder: for every list of well-formed blocks, wherever it starts and
      whatever has been output before, the result is exactly what the blocks denote. */
  lemma {:induction false} InflateInverts(s: seq<bool>, p: nat, q: nat, bs: seq<Block>, out: seq<Byte>)
    requires |s| % 8 == 0 && StreamWf(bs, p, out) && p <= |s| && Span(s, p, q, EncodeStream(bs, p, out))
    ensures InflateAll(s, p, out) == OutRes(1, q, StreamDenote(bs, p, out))
    decreases |bs|
  {
    if |bs| == 1 {
      BlockInverts(s, p, q, bs[0], 1, out);
      AllStep(s, p, out, OutRes(1, q, BlockDenote(bs[0], Body(p), out)));
    } else {
      var end, next := BlockEnd(bs[0], p, out), BlockDenote(bs[0], Body(p), out);
      var m := SpanSplit(s, p, q, EncodeBlock(bs[0], 0, p, out), EncodeStream(bs[1..], end, next));
      assert m == end;
      BlockInverts(s, p, end, bs[0], 0, out);
      AllStep(s, p, out, OutRes(0, end, next));
      InflateInverts(s, end, q, bs[1..], next);
    }
  }

  // -------------------------------------------- streams behind earlier output

  /** A match reaches back into what the stream itself has produced, whatever came before it. */
  lemma CopiedBehind(x: seq<Byte>, out: seq<Byte>, length: nat, distance: nat)
    requires 1 <= distance <= |out|
    ensures Copied(x + out, length, distance) == x + Copied(out, length, distance)
  {
    var a, b := Copied(x + out, length, distance), x + Copied(out, length, distance);
    forall i | 0 <= i < |a| ensures a[i] == b[i] {
      if i >= |x| + |out| {
        var k := i - |x| - |out|;
        assert Copied(out, length, distance)[|out| + k] == out[|out| - distance + k % distance];
      }
    }
  }

  lemma ApplyBehind(t: Token, x: seq<Byte>, out: seq<Byte>)
    requires Wf(t) && Reaches(t, out)
    ensures Reaches(t, x + out) && Apply(t, x + out) == x + Apply(t, out)
  {
    if t.Match? {
      CopiedBehind(x, out, Length(t), Distance(t));
    } else {
      assert x + out + [t.b] == x + (out + [t.b]);
    }
  }

  lemma {:induction false} TokensBehind(ts: seq<Token>, x: seq<Byte>, out: seq<Byte>, both: seq<Byte>)
    requires TokensWf(ts, out) && both == x + out
    ensures TokensWf(ts, both) && Denote(ts, both) == x + Denote(ts, out)
    decreases |ts|
  {
    if ts == [] {
    } else {
      ApplyBehind(ts[0], x, out);
      TokensBehind(ts[1..], x, Apply(ts[0], out), Apply(ts[0], both));
    }
  }

  lemma {:induction false} EncodeTokensBehind(ts: seq<Token>, x: seq<Byte>, out: seq<Byte>, both: seq<Byte>,
                                              ll: seq<CodeLen>, dl: seq<CodeLen>)
    requires TokensWf(ts, out) && TokensWf(ts, both) && both == x + out && TokensCoded(ts, ll, dl)
    ensures EncodeTokens(ts, both, ll, dl) == EncodeTokens(ts, out, ll, dl)
    decreases |ts|
  {
    if ts == [] {
    } else {
      ApplyBehind(ts[0], x, out);
      EncodeTokensBehind(ts[1..], x, Apply(ts[0], out), Apply(ts[0], both), ll, dl);
    }
  }

  lemma BlockBehind(b: Block, p: nat, x: seq<Byte>, out: seq<Byte>, both: seq<Byte>)
    requires BlockWf(b, p, out) && both == x + out
    ensures BlockWf(b, p, both) && BlockDenote(b, p, both) == x + BlockDenote(b, p, out)
    ensures EncodeBody(b, p, both) == EncodeBody(b, p, out)
  {
    match b
    case StoredBlock(bytes, _) =>
      assert x + out + bytes == x + (out + bytes);
    case FixedBlock(ts) =>
      TokensBehind(ts, x, out, both);
      FixedCoded(ts, out);
      EncodeTokensBehind(ts, x, out, both, FixedLit(), FixedDist());
    case DynamicBlock(h, ts) =>
      TokensBehind(ts, x, out, both);
      EncodeTokensBehind(ts, x, out, both, h.ll, h.dl);
  }

  lemma WholeBlockBehind(b: Block, last: nat, p: nat, x: seq<Byte>, out: seq<Byte>, both: seq<Byte>)
    requires last < 2 && BlockWf(b, Body(p), out) && both == x + out
    ensures BlockWf(b, Body(p), both) && BlockDenote(b, Body(p), both) == x + BlockDenote(b, Body(p), out)
    ensures BlockEnd(b, p, both) == BlockEnd(b, p, out) && EncodeBlock(b, last, p, both) == EncodeBlock(b, last, p, out)
  {
    BlockBehind(b, Body(p), x, out, both);
  }

  /** A stream of several blocks is its first block and a stream. */
  lemma StreamCons(bs: seq<Block>, p: nat, out: seq<Byte>, end: nat, next: seq<Byte>)
    requires |bs| > 1 && BlockWf(bs[0], Body(p), out)
    requires end == BlockEnd(bs[0], p, out) && next == BlockDenote(bs[0], Body(p), out)
    ensures StreamWf(bs, p, out) <==> StreamWf(bs[1..], end, next)
    ensures StreamWf(bs, p, out) ==>
      && StreamDenote(bs, p, out) == StreamDenote(bs[1..], end, next)
      && EncodeStream(bs, p, out) == EncodeBlock(bs[0], 0, p, out) + EncodeStream(bs[1..], end, next)
  {
  }

  lemma OneBlock(bs: seq<Block>, p: nat, out: seq<Byte>)
    requires |bs| == 1 && BlockWf(bs[0], Body(p), out)
    ensures StreamWf(bs, p, out) && StreamDenote(bs, p, out) == BlockDenote(bs[0], Body(p), out)
    ensures EncodeStream(bs, p, out) == EncodeBlock(bs[0], 1, p, out)
  {
  }

  /** A stream denotes the same bytes, and is written with the same bits, behind any output. */
  lemma {:induction false} StreamBehind(bs: seq<Block>, p: nat, x: seq<Byte>, out: seq<Byte>, both: seq<Byte>)
    requires StreamWf(bs, p, out) && both == x + out
    ensures StreamWf(bs, p, both) && StreamDenote(bs, p, both) == x + StreamDenote(bs, p, out)
    ensures EncodeStream(bs, p, both) == EncodeStream(bs, p, out)
    decreases |bs|
  {
    var b := bs[0];
    if |bs| == 1 {
      WholeBlockBehind(b, 1, p, x, out, both);
      OneBlock(bs, p, out);
      OneBlock(bs, p, both);
    } else {
      WholeBlockBehind(b, 0, p, x, out, both);
      var end, next, nextBoth := BlockEnd(b, p, out), BlockDenote(b, Body(p), out), BlockDenote(b, Body(p), both);
      StreamCons(bs, p, out, end, next);
      StreamBehind(bs[1..], end, x, next, nextBoth);
      StreamCons(bs, p, both, end, nextBoth);
    }
  }
}
