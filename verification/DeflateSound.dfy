/** The converse of the round trip: what inflation accepts, on any input, is an encoding of what it
    puts out. What the decoder tolerates shows as what is not claimed: codes need not be prefix codes,
    the last run of lengths may be too long, and NLEN is not looked at. */
module DeflateSound {
  import opened Bits
  import opened HuffmanCode
  import opened InflateSpec
  import opened DeflateEncoder
  import opened DeflateStream
  import InflateBounds

  // ---------------------------------------------------------- compressed data

  lemma SymbolSpan(s: seq<bool>, p: nat, q: nat, lens: seq<CodeLen>, i: nat)
    requires p <= |s| && Decode(lens, s, p) == Res(i, q)
    ensures Coded(lens, i) && Span(s, p, q, CodeBits(lens, i))
  {
    DecodeSound(lens, s, p);
  }

  lemma LengthSpan(s: seq<bool>, p: nat, q: nat, slot: nat, length: nat) returns (extra: nat)
    requires p <= |s| && slot < 29 && GetLen(s, p, 257 + slot) == Res(length, q)
    ensures extra < Pow2(LenExtra(slot)) && length == LenBase(slot) + extra
    ensures Span(s, p, q, LsbFirst(extra, LenExtra(slot)))
  {
    LengthTable(slot);
    extra := ExtraSpan(s, p, q, LenBase(slot), LenExtra(slot), length);
  }

  /** The extra bits behind a base value. */
  lemma ExtraSpan(s: seq<bool>, p: nat, q: nat, base: nat, n: nat, v: nat) returns (extra: nat)
    requires p <= |s| && AddExtra(s, p, base, n) == Res(v, q)
    ensures extra < Pow2(n) && v == base + extra && Span(s, p, q, LsbFirst(extra, n))
  {
    extra := v - base;
    if n > 0 { NumberSpan(s, p, q, extra, n); }
  }

  lemma DistanceSpan(s: seq<bool>, p: nat, q: nat, dl: seq<CodeLen>, distance: nat) returns (slot: nat, extra: nat)
    requires p <= |s| && distance > 0 && GetDist(s, p, dl) == Res(distance, q)
    ensures slot < 30 && Coded(dl, slot) && extra < Pow2(DistExtra(slot)) && distance == DistBase(slot) + extra
    ensures Span(s, p, q, CodeBits(dl, slot) + LsbFirst(extra, DistExtra(slot)))
  {
    var d := Decode(dl, s, p);
    slot := d.v;
    SymbolSpan(s, p, d.p, dl, slot);
    DistanceTable(slot);
    extra := ExtraSpan(s, d.p, q, DistBase(slot), DistExtra(slot), distance);
    SpanJoin(s, p, d.p, q, CodeBits(dl, slot), LsbFirst(extra, DistExtra(slot)));
  }

  /** A symbol that is carried out, neither refused nor the end, is a literal's or a match's. */
  lemma TokenSpan(s: seq<bool>, p: nat, m: nat, out: seq<Byte>, ll: seq<CodeLen>, dl: seq<CodeLen>, sym: nat, r: OutRes)
    returns (t: Token)
    requires p <= |s| && Decode(ll, s, p) == Res(sym, m) && r == DoSym(s, m, out, dl, sym) && r.v == 0
    ensures Wf(t) && Reaches(t, out) && TokenCoded(t, ll, dl) && Apply(t, out) == r.out
    ensures Span(s, p, r.p, EncodeToken(t, ll, dl))
  {
    SymbolSpan(s, p, m, ll, sym);
    if sym < 256 {
      t := Literal(sym);
    } else {
      t := MatchSpan(s, m, out, dl, sym - 257, r);
      SpanJoin(s, p, m, r.p, CodeBits(ll, sym), EncodeMatch(t, dl));
    }
  }

  /** A match that is carried out has a length and a distance that reaches into the output. */
  lemma MatchParts(s: seq<bool>, m: nat, out: seq<Byte>, dl: seq<CodeLen>, sym: nat, r: OutRes)
    returns (length: Res, distance: Res)
    requires m <= |s| && sym > 256 && r == DoSym(s, m, out, dl, sym) && r.v == 0
    ensures length == GetLen(s, m, sym) && 3 <= length.v <= 258 && length.p <= |s| && sym < 286
    ensures distance == GetDist(s, length.p, dl) && 1 <= distance.v <= |out|
    ensures r == OutRes(0, distance.p, Copied(out, length.v, distance.v))
  {
    length := GetLen(s, m, sym);
    distance := GetDist(s, length.p, dl);
  }

  lemma MatchSpan(s: seq<bool>, m: nat, out: seq<Byte>, dl: seq<CodeLen>, slot: nat, r: OutRes) returns (t: Token)
    requires m <= |s| && r == DoSym(s, m, out, dl, 257 + slot) && r.v == 0
    ensures t.Match? && t.lslot == slot && Wf(t) && Reaches(t, out) && Coded(dl, t.dslot) && Apply(t, out) == r.out
    ensures Span(s, m, r.p, EncodeMatch(t, dl))
  {
    var length, distance := MatchParts(s, m, out, dl, 257 + slot, r);
    t := PartsToken(s, m, dl, slot, length, distance);
  }

  lemma PartsToken(s: seq<bool>, m: nat, dl: seq<CodeLen>, slot: nat, length: Res, distance: Res) returns (t: Token)
    requires m <= |s| && slot < 29 && length == GetLen(s, m, 257 + slot) && 3 <= length.v <= 258 && length.p <= |s|
    requires distance == GetDist(s, length.p, dl) && distance.v >= 1
    ensures t.Match? && t.lslot == slot && Wf(t) && Length(t) == length.v && Distance(t) == distance.v
    ensures Coded(dl, t.dslot) && Span(s, m, distance.p, EncodeMatch(t, dl))
  {
    var lextra := LengthSpan(s, m, length.p, slot, length.v);
    var dslot, dextra := DistanceSpan(s, length.p, distance.p, dl, distance.v);
    t := Match(slot, lextra, dslot, dextra);
    MatchJoins(s, m, length.p, distance.p, t, dl);
  }

  lemma MatchJoins(s: seq<bool>, m: nat, a: nat, q: nat, t: Token, dl: seq<CodeLen>)
    requires t.Match? && Wf(t) && Coded(dl, t.dslot) && Span(s, m, a, LsbFirst(t.lextra, LenExtra(t.lslot)))
    requires Span(s, a, q, CodeBits(dl, t.dslot) + LsbFirst(t.dextra, DistExtra(t.dslot)))
    ensures Span(s, m, q, EncodeMatch(t, dl))
  {
    SpanJoin(s, m, a, q, LsbFirst(t.lextra, LenExtra(t.lslot)),
             CodeBits(dl, t.dslot) + LsbFirst(t.dextra, DistExtra(t.dslot)));
  }

  /** Whatever the lengths, prefix code or not: compressed data that the decode loop accepts is the
      encoding of some literals and matches, and what it puts out is what they denote. */
  lemma {:induction false} RunLoopSound(s: seq<bool>, p: nat, out: seq<Byte>, ll: seq<CodeLen>, dl: seq<CodeLen>,
                                        last: nat, r: OutRes) returns (ts: seq<Token>)
    requires p <= |s| && r == RunLoop(s, p, out, ll, dl, last) && r.v >= 0
    ensures r.v == last && TokensWf(ts, out) && TokensCoded(ts, ll, dl)
    ensures Span(s, p, r.p, EncodeTokens(ts, out, ll, dl)) && Denote(ts, out) == r.out
    decreases |s| - p
  {
    var d := Decode(ll, s, p);
    var next := DoSym(s, d.p, out, dl, d.v);
    if next.v > 0 {
      SymbolSpan(s, p, d.p, ll, 256);
      ts := [];
    } else {
      var t := TokenSpan(s, p, d.p, out, ll, dl, d.v, next);
      LoopStep(s, p, out, ll, dl, last, d, next);
      var rest := RunLoopSound(s, next.p, next.out, ll, dl, last, r);
      ts := [t] + rest;
      TokenInFront(t, rest, ts, out, next.out, ll, dl);
      SpanJoin(s, p, next.p, r.p, EncodeToken(t, ll, dl), EncodeTokens(rest, next.out, ll, dl));
    }
  }

  lemma TokenInFront(t: Token, rest: seq<Token>, ts: seq<Token>, out: seq<Byte>, next: seq<Byte>,
                     ll: seq<CodeLen>, dl: seq<CodeLen>)
    requires ts == [t] + rest && Wf(t) && Reaches(t, out) && next == Apply(t, out) && TokenCoded(t, ll, dl)
    requires TokensWf(rest, next) && TokensCoded(rest, ll, dl)
    ensures TokensWf(ts, out) && TokensCoded(ts, ll, dl) && Denote(ts, out) == Denote(rest, next)
    ensures EncodeTokens(ts, out, ll, dl) == EncodeToken(t, ll, dl) + EncodeTokens(rest, next, ll, dl)
  {
    assert ts[1..] == rest;
  }

  // ---------------------------------------------------------- dynamic headers

  /** A run that is carried out is one of the three kinds; what exceeds the total is cut off. */
  lemma RunSpan(s: seq<bool>, p: nat, acc: seq<CodeLen>, total: nat, sym: nat, r: LensRes) returns (it: Item)
    requires p <= |s| && |acc| <= total && 16 <= sym <= 18 && r == RepLen(s, p, acc, total, sym) && r.ok
    ensures !it.Len? && ItemSym(it) == sym && ItemWf(it, acc) && Span(s, p, r.p, ItemExtra(it))
    ensures r.lens <= ExpandItem(it, acc) && (r.lens == ExpandItem(it, acc) || |r.lens| == total)
  {
    if sym == 16 {
      var raw := GetBits(s, p, 2);
      it := RepeatSpan(s, p, raw);
      CutRun(it, acc, total, raw.v + 3, acc[|acc| - 1]);
    } else if sym == 17 {
      var raw := GetBits(s, p, 3);
      it := ZerosSpan(s, p, raw);
      CutRun(it, acc, total, raw.v + 3, 0);
    } else {
      var raw := GetBits(s, p, 7);
      it := LongZerosSpan(s, p, raw);
      CutRun(it, acc, total, raw.v + 11, 0);
    }
  }

  lemma RepeatSpan(s: seq<bool>, p: nat, raw: Res) returns (it: Item)
    requires p <= |s| && raw == GetBits(s, p, 2) && raw.v >= 0
    ensures it == Repeat(raw.v + 3) && raw.v < 4 && Span(s, p, raw.p, ItemExtra(it))
  {
    it := Repeat(raw.v + 3);
    SmallPowers();
    NumberSpan(s, p, raw.p, raw.v, 2);
  }

  lemma ZerosSpan(s: seq<bool>, p: nat, raw: Res) returns (it: Item)
    requires p <= |s| && raw == GetBits(s, p, 3) && raw.v >= 0
    ensures it == Zeros(raw.v + 3) && raw.v < 8 && Span(s, p, raw.p, ItemExtra(it))
  {
    it := Zeros(raw.v + 3);
    SmallPowers();
    NumberSpan(s, p, raw.p, raw.v, 3);
  }

  lemma LongZerosSpan(s: seq<bool>, p: nat, raw: Res) returns (it: Item)
    requires p <= |s| && raw == GetBits(s, p, 7) && raw.v >= 0
    ensures it == LongZeros(raw.v + 11) && raw.v < 128 && Span(s, p, raw.p, ItemExtra(it))
  {
    it := LongZeros(raw.v + 11);
    SmallPowers();
    NumberSpan(s, p, raw.p, raw.v, 7);
  }

  lemma CutRun(it: Item, acc: seq<CodeLen>, total: nat, n: nat, val: CodeLen)
    requires ItemWf(it, acc) && |acc| <= total
    requires if it.Repeat? then n == it.n && val == acc[|acc| - 1]
             else (it.Zeros? || it.LongZeros?) && n == it.n && val == 0
    ensures FillRep(acc, total, n, val) <= ExpandItem(it, acc)
    ensures FillRep(acc, total, n, val) == ExpandItem(it, acc) || |FillRep(acc, total, n, val)| == total
  {
  }

  /** Lengths that are accepted are the beginning of what some items stand for; the code they were
      sent in need not be a prefix code, and only the last run may be cut. */
  lemma {:induction false} DecodeLensSound(s: seq<bool>, p: nat, cl: seq<CodeLen>, acc: seq<CodeLen>, total: nat,
                                           r: LensRes) returns (its: seq<Item>)
    requires p <= |s| && |cl| == 19 && |acc| <= total && r == DecodeLens(s, p, cl, acc, total) && r.ok
    ensures ItemsWf(its, acc) && ItemsCoded(its, cl) && Span(s, p, r.p, EncodeItems(its, cl))
    ensures r.lens <= Expand(its, acc) && |r.lens| == total
    decreases |s| - p
  {
    if |acc| == total {
      its := [];
    } else {
      var d := Decode(cl, s, p);
      SymbolSpan(s, p, d.p, cl, d.v);
      if d.v < 16 {
        LensStepLen(s, p, cl, acc, total, d);
        var rest := DecodeLensSound(s, d.p, cl, acc + [d.v], total, r);
        its := ItemInFront(s, p, d.p, d.p, Len(d.v), rest, cl, acc, r);
      } else {
        var run := RepLen(s, d.p, acc, total, d.v);
        var it := RunSpan(s, d.p, acc, total, d.v, run);
        LensStepRun(s, p, cl, acc, total, d, run);
        if run.lens == ExpandItem(it, acc) {
          var rest := DecodeLensSound(s, run.p, cl, run.lens, total, r);
          its := ItemInFront(s, p, d.p, run.p, it, rest, cl, acc, r);
        } else {
          its := LastItem(s, p, d.p, run.p, it, cl, acc);
        }
      }
    }
  }

  lemma ItemInFront(s: seq<bool>, p: nat, m: nat, q: nat, it: Item, rest: seq<Item>, cl: seq<CodeLen>,
                    acc: seq<CodeLen>, r: LensRes) returns (its: seq<Item>)
    requires |cl| == 19 && ItemWf(it, acc) && Coded(cl, ItemSym(it)) && ItemsCoded(rest, cl)
    requires ItemsWf(rest, ExpandItem(it, acc)) && r.lens <= Expand(rest, ExpandItem(it, acc))
    requires Span(s, p, m, CodeBits(cl, ItemSym(it))) && Span(s, m, q, ItemExtra(it))
    requires Span(s, q, r.p, EncodeItems(rest, cl))
    ensures ItemsWf(its, acc) && ItemsCoded(its, cl) && Span(s, p, r.p, EncodeItems(its, cl))
    ensures r.lens <= Expand(its, acc)
  {
    its := [it] + rest;
    assert its[1..] == rest;
    SpanJoin(s, p, m, q, CodeBits(cl, ItemSym(it)), ItemExtra(it));
    SpanJoin(s, p, q, r.p, EncodeItem(it, cl), EncodeItems(rest, cl));
  }

  lemma LastItem(s: seq<bool>, p: nat, m: nat, q: nat, it: Item, cl: seq<CodeLen>, acc: seq<CodeLen>)
    returns (its: seq<Item>)
    requires |cl| == 19 && ItemWf(it, acc) && Coded(cl, ItemSym(it))
    requires Span(s, p, m, CodeBits(cl, ItemSym(it))) && Span(s, m, q, ItemExtra(it))
    ensures ItemsWf(its, acc) && ItemsCoded(its, cl) && Span(s, p, q, EncodeItems(its, cl))
    ensures Expand(its, acc) == ExpandItem(it, acc)
  {
    its := [it];
    SpanJoin(s, p, m, q, CodeBits(cl, ItemSym(it)), ItemExtra(it));
    assert its[1..] == [] && EncodeItem(it, cl) + [] == EncodeItem(it, cl);
  }

  lemma {:induction false} ReadClLensSound(s: seq<bool>, p: nat, i: nat, nc: nat, cur: seq<CodeLen>, r: LensRes)
    requires p <= |s| && i <= nc <= 19 && |cur| == 19 && r == ReadClLens(s, p, i, nc, cur) && r.ok
    ensures |r.lens| == 19 && Span(s, p, r.p, EncodeClLens(r.lens, i, nc))
    ensures forall j: nat :: j < 19 ==>
      if i <= j < nc then r.lens[Listed(j)] < 8 else r.lens[Listed(j)] == cur[Listed(j)]
    decreases nc - i
  {
    if i == nc {
    } else {
      var k, v := Listed(i), GetBits(s, p, 3);
      ListedOrder(i);
      ClValue(s, p, 3);
      NumberSpan(s, p, v.p, v.v, 3);
      ReadClLensSound(s, v.p, i + 1, nc, cur[k := v.v], r);
      ListedOnce(cur, i, v.v);
      SpanJoin(s, p, v.p, r.p, LsbFirst(v.v, 3), EncodeClLens(r.lens, i + 1, nc));
    }
  }

  lemma ListedOnce(cur: seq<CodeLen>, i: nat, v: CodeLen)
    requires |cur| == 19 && i < 19
    ensures forall j: nat :: j < 19 && j != i ==> cur[Listed(i) := v][Listed(j)] == cur[Listed(j)]
  {
    forall j: nat | j < 19 && j != i ensures Listed(j) != Listed(i) {
      if Listed(j) == Listed(i) { ListedInjective(i, j); }
    }
  }

  /** The length code that is read has zeros where none was listed. */
  lemma LengthCodeSound(s: seq<bool>, p: nat, nc: nat, r: LensRes)
    requires p <= |s| && nc <= 19 && r == ReadClLens(s, p, 0, nc, NoClLens()) && r.ok
    ensures ClLensWf(r.lens, nc) && Span(s, p, r.p, EncodeClLens(r.lens, 0, nc))
  {
    ReadClLensSound(s, p, 0, nc, NoClLens(), r);
    forall k | 0 <= k < 19 ensures r.lens[k] < 8 {
      assert Listed(ClPos(k)) == k;
    }
  }

  /** What an accepted dynamic header is: the three counts, a length code in its order, and items. */
  ghost predicate HeaderRead(s: seq<bool>, p: nat, d: DynRes, nc: nat, cl: seq<CodeLen>, its: seq<Item>) {
    && d.ok && 257 <= |d.ll| <= 288 && 1 <= |d.dl| <= 32 && 4 <= nc <= 19 && ClLensWf(cl, nc)
    && ItemsWf(its, []) && ItemsCoded(its, cl) && d.ll + d.dl <= Expand(its, [])
    && Span(s, p, d.p, LsbFirst(|d.ll| - 257, 5) + (LsbFirst(|d.dl| - 1, 5) + (LsbFirst(nc - 4, 4) +
         (EncodeClLens(cl, 0, nc) + EncodeItems(its, cl)))))
  }

  lemma CodeLengthsSound(s: seq<bool>, p: nat, nl: nat, nd: nat, total: nat, r: LensRes)
    returns (nc: nat, cl: seq<CodeLen>, its: seq<Item>)
    requires p <= |s| && r == ReadCodeLengths(s, p, nl, nd) && r.ok && total == nl + nd
    ensures 4 <= nc <= 19 && ClLensWf(cl, nc) && ItemsWf(its, []) && ItemsCoded(its, cl)
    ensures r.lens <= Expand(its, []) && |r.lens| == total && p + 16 <= |s|
    ensures Span(s, p, r.p, LsbFirst(nc - 4, 4) + (EncodeClLens(cl, 0, nc) + EncodeItems(its, cl)))
  {
    var count, code := CodeParts(s, p, nl, nd, total, r);
    nc, cl := count.v + 4, code.lens;
    NumberSpan(s, p, count.p, count.v, 4);
    LengthCodeSound(s, count.p, nc, code);
    its := DecodeLensSound(s, code.p, cl, [], total, r);
    CodeJoins(s, p, count.p, code.p, r.p, nc, cl, its);
  }

  /** The count and the length code that accepted lengths were read with. */
  lemma CodeParts(s: seq<bool>, p: nat, nl: nat, nd: nat, total: nat, r: LensRes) returns (count: Res, code: LensRes)
    requires p <= |s| && r == ReadCodeLengths(s, p, nl, nd) && r.ok && total == nl + nd
    ensures p + 16 <= |s| && count == GetBits(s, p, 4) && 0 <= count.v <= 15 && count.p <= |s|
    ensures code == ReadClLens(s, count.p, 0, count.v + 4, NoClLens()) && code.ok && code.p <= |s|
    ensures |code.lens| == 19 && r == DecodeLens(s, code.p, code.lens, [], total)
  {
    InflateBounds.CodeLengthsNeed(s, p, nl, nd);
    CodeLengthsCases(s, p, nl, nd);
    count := GetBits(s, p, 4);
    code := ReadClLens(s, count.p, 0, count.v + 4, NoClLens());
  }

  lemma CodeJoins(s: seq<bool>, p: nat, a: nat, b: nat, q: nat, nc: nat, cl: seq<CodeLen>, its: seq<Item>)
    requires 4 <= nc <= 19 && |cl| == 19 && ItemsCoded(its, cl) && Span(s, p, a, LsbFirst(nc - 4, 4))
    requires Span(s, a, b, EncodeClLens(cl, 0, nc)) && Span(s, b, q, EncodeItems(its, cl))
    ensures Span(s, p, q, LsbFirst(nc - 4, 4) + (EncodeClLens(cl, 0, nc) + EncodeItems(its, cl)))
  {
    SpanJoin(s, a, b, q, EncodeClLens(cl, 0, nc), EncodeItems(its, cl));
    SpanJoin(s, p, a, q, LsbFirst(nc - 4, 4), EncodeClLens(cl, 0, nc) + EncodeItems(its, cl));
  }

  /** The two counts were read if there is anything behind them. */
  lemma CountsRead(s: seq<bool>, p: nat, nl: Res, nd: Res)
    requires p <= |s| && nl == GetBits(s, p, 5) && nd == GetBits(s, nl.p, 5) && nd.p + 16 <= |s|
    ensures 0 <= nl.v < 32 && 0 <= nd.v < 32
    ensures Span(s, p, nl.p, LsbFirst(nl.v, 5)) && Span(s, nl.p, nd.p, LsbFirst(nd.v, 5))
  {
    NumberSpan(s, p, nl.p, nl.v, 5);
    NumberSpan(s, nl.p, nd.p, nd.v, 5);
    SmallPowers();
  }

  lemma FiveSpan(s: seq<bool>, p: nat, a: nat, b: nat, q: nat, x: nat, y: nat, rest: seq<bool>)
    requires Span(s, p, a, LsbFirst(x, 5)) && Span(s, a, b, LsbFirst(y, 5)) && Span(s, b, q, rest)
    ensures Span(s, p, q, LsbFirst(x, 5) + (LsbFirst(y, 5) + rest))
  {
    SpanJoin(s, a, b, q, LsbFirst(y, 5), rest);
    SpanJoin(s, p, a, q, LsbFirst(x, 5), LsbFirst(y, 5) + rest);
  }

  /** Every accepted dynamic header is one. */
  lemma ReadDynamicSound(s: seq<bool>, p: nat, d: DynRes) returns (nc: nat, cl: seq<CodeLen>, its: seq<Item>)
    requires p <= |s| && d == ReadDynamic(s, p) && d.ok
    ensures HeaderRead(s, p, d, nc, cl, its)
  {
    var nl := GetBits(s, p, 5);
    var nd := GetBits(s, nl.p, 5);
    var n, m := nl.v + 257, nd.v + 1;
    DynamicCases(s, p, nl, nd, n, m);
    var r := ReadCodeLengths(s, nd.p, n, m);
    nc, cl, its := CodeLengthsSound(s, nd.p, n, m, n + m, r);
    CountsRead(s, p, nl, nd);
    HeaderJoins(s, p, nl, nd, r, d, nc, cl, its);
  }

  lemma HeaderJoins(s: seq<bool>, p: nat, nl: Res, nd: Res, r: LensRes, d: DynRes, nc: nat, cl: seq<CodeLen>,
                    its: seq<Item>)
    requires 0 <= nl.v < 32 && 0 <= nd.v < 32 && r.ok && |r.lens| == nl.v + 257 + (nd.v + 1)
    requires d == DynRes(true, r.p, r.lens[..nl.v + 257], r.lens[nl.v + 257..])
    requires 4 <= nc <= 19 && ClLensWf(cl, nc) && ItemsWf(its, []) && ItemsCoded(its, cl)
    requires r.lens <= Expand(its, []) && Span(s, p, nl.p, LsbFirst(nl.v, 5)) && Span(s, nl.p, nd.p, LsbFirst(nd.v, 5))
    requires Span(s, nd.p, r.p, LsbFirst(nc - 4, 4) + (EncodeClLens(cl, 0, nc) + EncodeItems(its, cl)))
    ensures HeaderRead(s, p, d, nc, cl, its)
  {
    var x, y := |d.ll| - 257, |d.dl| - 1;
    assert x == nl.v && y == nd.v;
    FiveSpan(s, p, nl.p, nd.p, r.p, x, y, LsbFirst(nc - 4, 4) + (EncodeClLens(cl, 0, nc) + EncodeItems(its, cl)));
    TwoParts(r.lens, nl.v + 257);
  }

  lemma TwoParts(lens: seq<CodeLen>, n: nat)
    requires n <= |lens|
    ensures lens[..n] + lens[n..] == lens
  {
  }

  // ------------------------------------------------------------------- blocks

  /** The three bits of an accepted block. */
  lemma HeadSpan(s: seq<bool>, p: nat, kind: nat, last: Res, after: Res)
    requires p <= |s| && last == GetBits(s, p, 1) && after == GetBits(s, last.p, 2) && after.v == kind
    ensures 0 <= last.v < 2 && after.p == Body(p) <= |s| && last.p <= |s|
    ensures Span(s, p, last.p, LsbFirst(last.v, 1)) && Span(s, last.p, Body(p), LsbFirst(kind, 2))
  {
    NumberSpan(s, p, last.p, last.v, 1);
    NumberSpan(s, last.p, after.p, kind, 2);
    assert Pow2(1) == 2;
  }

  lemma {:induction false} StoredBytesSound(s: seq<bool>, p: nat, out: seq<Byte>, n: nat, r: OutRes)
    returns (bytes: seq<Byte>)
    requires p <= |s| && r == StoredBytes(s, p, out, n) && r.v == 0
    ensures |bytes| == n && Span(s, p, r.p, Stream(bytes)) && r.out == out + bytes
    decreases n
  {
    if n == 0 {
      bytes := [];
      assert out + [] == out;
    } else {
      var b := GetBits(s, p, 8);
      NumberSpan(s, p, b.p, b.v, 8);
      ByteValue(s, p, 8);
      var rest := StoredBytesSound(s, b.p, out + [b.v], n - 1, r);
      bytes := ByteInFront(s, p, b.p, r.p, b.v, rest);
      assert out + [b.v] + rest == out + bytes;
    }
  }

  lemma ByteInFront(s: seq<bool>, p: nat, m: nat, q: nat, b: Byte, rest: seq<Byte>) returns (bytes: seq<Byte>)
    requires Span(s, p, m, LsbFirst(b, 8)) && Span(s, m, q, Stream(rest))
    ensures bytes == [b] + rest && Span(s, p, q, Stream(bytes))
  {
    bytes := [b] + rest;
    assert bytes[1..] == rest;
    SpanJoin(s, p, m, q, LsbFirst(b, 8), Stream(rest));
  }

  /** Every accepted stored block is a length at the next byte boundary and as many bytes, which are put
      out; what stands in between, 16 bits unless the input ends before them, is not looked at. */
  lemma StoredSound(s: seq<bool>, p: nat, a: nat, out: seq<Byte>, r: OutRes) returns (bytes: seq<Byte>, from: nat)
    requires p <= |s| && |s| % 8 == 0 && a == (p + 7) / 8 * 8 && r == DecodeStored(s, p, out) && r.v >= 0
    ensures from == if a + 32 <= |s| then a + 32 else a + 16
    ensures Span(s, a, a + 16, LsbFirst(|bytes|, 16)) && Span(s, from, r.p, Stream(bytes)) && r.out == out + bytes
  {
    var len := GetBits(s, a, 16);
    var nlen := GetBits(s, len.p, 16);
    StoredFrom(s, p, out, a, len, nlen);
    NumberSpan(s, a, len.p, len.v, 16);
    from := nlen.p;
    bytes := StoredBytesSound(s, from, out, len.v, r);
  }

  /** Every accepted block with fixed codes is the encoding of one, and is inflated to what that
      denotes: with BlockInverts, exactly those are accepted. */
  lemma FixedSound(s: seq<bool>, p: nat, out: seq<Byte>, r: OutRes) returns (b: Block)
    requires p <= |s| && |s| % 8 == 0 && r == InflateBlock(s, p, out) && r.v >= 0
    requires InflateBounds.BlockKind(s, p) == 1
    ensures b.FixedBlock? && r.v < 2 && BlockWf(b, Body(p), out) && BlockDenote(b, Body(p), out) == r.out
    ensures Span(s, p, r.p, EncodeBlock(b, r.v, p, out))
  {
    var last := GetBits(s, p, 1);
    BlockCases(s, p, out);
    HeadSpan(s, p, 1, last, GetBits(s, last.p, 2));
    var ts := RunLoopSound(s, Body(p), out, FixedLit(), FixedDist(), last.v, r);
    b := FixedBlock(ts);
    var body := EncodeTokens(ts, out, FixedLit(), FixedDist());
    SpanJoin(s, last.p, Body(p), r.p, LsbFirst(1, 2), body);
    SpanJoin(s, p, last.p, r.p, LsbFirst(last.v, 1), LsbFirst(1, 2) + body);
  }

  /** Every accepted block with dynamic codes is a header as above and the encoding, in the codes that
      it describes, of literals and matches that denote what is put out. */
  lemma DynamicSound(s: seq<bool>, p: nat, out: seq<Byte>, r: OutRes)
    returns (d: DynRes, nc: nat, cl: seq<CodeLen>, its: seq<Item>, ts: seq<Token>)
    requires p <= |s| && |s| % 8 == 0 && r == InflateBlock(s, p, out) && r.v >= 0
    requires InflateBounds.BlockKind(s, p) == 2
    ensures r.v < 2 && Span(s, p, Body(p), LsbFirst(r.v, 1) + LsbFirst(2, 2))
    ensures HeaderRead(s, Body(p), d, nc, cl, its) && TokensWf(ts, out) && TokensCoded(ts, d.ll, d.dl)
    ensures Span(s, d.p, r.p, EncodeTokens(ts, out, d.ll, d.dl)) && Denote(ts, out) == r.out
  {
    var last := GetBits(s, p, 1);
    BlockCases(s, p, out);
    HeadSpan(s, p, 2, last, GetBits(s, last.p, 2));
    SpanJoin(s, p, last.p, Body(p), LsbFirst(last.v, 1), LsbFirst(2, 2));
    d := ReadDynamic(s, Body(p));
    nc, cl, its := ReadDynamicSound(s, Body(p), d);
    ts := RunLoopSound(s, d.p, out, d.ll, d.dl, last.v, r);
  }
}
