/** An encoder for the DEFLATE format (section 3.2 of RFC 1951), and the proof that the decoder
    inverts it. Base values, extra bits and the order of the code lengths are formulas here and
    tables in the decoder; the code of given lengths and what copying a match means are shared. */
module DeflateEncoder {
  import opened Bits
  import opened HuffmanCode
  import opened InflateSpec

  // ------------------------------------------------------------------ tables

  /** Four length symbols for each number of extra bits, and one for 258. */
  function LenExtra(slot: nat): nat {
    if slot < 4 || slot == 28 then 0 else slot / 4 - 1
  }

  function LenBase(slot: nat): nat {
    if slot == 28 then 258 else if slot < 4 then 3 + slot else 3 + (4 + slot % 4) * Pow2(slot / 4 - 1)
  }

  /** Two distance symbols for each number of extra bits. */
  function DistExtra(slot: nat): nat {
    if slot < 2 then 0 else slot / 2 - 1
  }

  function DistBase(slot: nat): nat {
    if slot < 2 then 1 + slot
    else if slot % 2 == 0 then 1 + 2 * Pow2(slot / 2 - 1) else 1 + 3 * Pow2(slot / 2 - 1)
  }

  /** The i-th length of the length code that a dynamic header lists: the runs, 0, and then the
      other lengths from the middle outwards. */
  function Listed(i: nat): (k: nat)
    requires i < 19
    ensures k < 19
  {
    if i < 3 then 16 + i else if i == 3 then 0
    else if i % 2 == 0 then 8 + (i - 4) / 2 else 8 - (i - 3) / 2
  }

  lemma SmallPowers()
    ensures Pow2(0) == 1 && Pow2(1) == 2 && Pow2(2) == 4 && Pow2(3) == 8 && Pow2(4) == 16 && Pow2(5) == 32
    ensures Pow2(6) == 64 && Pow2(7) == 128 && Pow2(8) == 256 && Pow2(9) == 512 && Pow2(10) == 1024
    ensures Pow2(11) == 2048 && Pow2(12) == 4096 && Pow2(13) == 8192
  {
  }

  /** The decoder's tables of lengths hold what the formulas of section 3.2.5 give. */
  lemma LengthTable(slot: nat)
    requires slot < 29
    ensures LEN_EXTRA[slot] == LenExtra(slot) && LEN_BASE[slot] == LenBase(slot)
  {
    if 4 <= slot < 28 { LongLengths(slot, slot / 4 - 1, slot % 4); }
  }

  lemma LongLengths(slot: nat, extra: nat, k: nat)
    requires extra < 6 && k < 4 && slot == 4 * (extra + 1) + k
    ensures LEN_EXTRA[slot] == extra && LEN_BASE[slot] == 3 + (4 + k) * Pow2(extra)
  {
    SmallPowers();
    if k == 0 { } else if k == 1 { } else if k == 2 { } else { }
  }

  lemma DistanceTable(slot: nat)
    requires slot < 30
    ensures DIST_EXTRA[slot] == DistExtra(slot) && DIST_BASE[slot] == DistBase(slot)
  {
    if slot >= 2 { LongDistances(slot, slot / 2 - 1); }
  }

  lemma LongDistances(slot: nat, extra: nat)
    requires 2 <= slot < 30 && extra == slot / 2 - 1
    ensures DIST_EXTRA[slot] == extra && DIST_BASE[slot] == 1 + (if slot % 2 == 0 then 2 else 3) * Pow2(extra)
  {
    SmallPowers();
    if slot % 2 == 0 { assert slot == 2 * extra + 2; } else { assert slot == 2 * extra + 3; }
  }

  /** Its order of the code lengths is that of section 3.2.7. */
  lemma ListedOrder(i: nat)
    requires i < 19
    ensures ClOrd(i) == Listed(i)
    ensures i < 3 ==> ClOrd(i) == 16 + i
    ensures i == 3 ==> ClOrd(i) == 0
    ensures i >= 4 && i % 2 == 0 ==> ClOrd(i) == 8 + (i - 4) / 2
    ensures i >= 4 && i % 2 == 1 ==> ClOrd(i) == 8 - (i - 3) / 2
  {
  }

  // ------------------------------------------------------------------ tokens

  /** A literal byte, or a match given by its length and distance symbols and extra bits. */
  datatype Token = Literal(b: Byte) | Match(lslot: nat, lextra: nat, dslot: nat, dextra: nat)

  predicate Wf(t: Token) {
    t.Match? ==>
      && t.lslot < 29 && t.lextra < Pow2(LenExtra(t.lslot)) && Length(t) <= 258
      && t.dslot < 30 && t.dextra < Pow2(DistExtra(t.dslot))
  }

  function Length(t: Token): (n: nat)
    requires t.Match?
    ensures n >= 3
  {
    LenBase(t.lslot) + t.lextra
  }

  function Distance(t: Token): (n: nat)
    requires t.Match?
    ensures n >= 1
  {
    DistBase(t.dslot) + t.dextra
  }

  /** A match's symbol in the literal/length alphabet. */
  function LenSym(t: Token): nat
    requires t.Match?
  {
    257 + t.lslot
  }

  /** The token's bytes are known: a match reaches back no further than the output goes. */
  predicate Reaches(t: Token, out: seq<Byte>) {
    t.Match? ==> Distance(t) <= |out|
  }

  /** The lengths and distances of a symbol begin where those of the one before it end. */
  lemma NextLength(i: nat)
    requires 0 < i < 28
    ensures LenBase(i) == LenBase(i - 1) + Pow2(LenExtra(i - 1))
  {
    if i < 8 {
      assert Pow2(0) == 1;
    } else {
      var k, x := i % 4, Pow2(i / 4 - 1);
      if k == 0 { assert LenExtra(i - 1) == i / 4 - 2 && x == 2 * Pow2(i / 4 - 2); }
    }
  }

  lemma NextDistance(i: nat)
    requires 0 < i < 30
    ensures DistBase(i) == DistBase(i - 1) + Pow2(DistExtra(i - 1))
  {
    if i < 4 {
      assert Pow2(0) == 1;
    } else if i % 2 == 0 {
      assert DistExtra(i - 1) == i / 2 - 2 && Pow2(i / 2 - 1) == 2 * Pow2(i / 2 - 2);
    }
  }

  lemma {:induction false} LengthSlot(n: nat, i: nat) returns (slot: nat)
    requires i < 28 && 3 <= n < LenBase(i) + Pow2(LenExtra(i))
    ensures slot <= i && LenBase(slot) <= n < LenBase(slot) + Pow2(LenExtra(slot))
  {
    if LenBase(i) <= n {
      slot := i;
    } else {
      NextLength(i);
      slot := LengthSlot(n, i - 1);
    }
  }

  lemma {:induction false} DistanceSlot(n: nat, i: nat) returns (slot: nat)
    requires i < 30 && 1 <= n < DistBase(i) + Pow2(DistExtra(i))
    ensures slot <= i && DistBase(slot) <= n < DistBase(slot) + Pow2(DistExtra(slot))
  {
    if DistBase(i) <= n {
      slot := i;
    } else {
      NextDistance(i);
      slot := DistanceSlot(n, i - 1);
    }
  }

  /** Every length and distance of the format is one of some match. */
  lemma EveryMatch(length: nat, distance: nat) returns (t: Token)
    requires 3 <= length <= 258 && 1 <= distance <= 32768
    ensures t.Match? && Wf(t) && Length(t) == length && Distance(t) == distance
  {
    SmallPowers();
    assert LenBase(27) + Pow2(LenExtra(27)) == 259;
    var l := LengthSlot(length, 27);
    var d := DistanceSlot(distance, 29);
    t := Match(l, length - LenBase(l), d, distance - DistBase(d));
  }

  function Apply(t: Token, out: seq<Byte>): seq<Byte>
    requires Reaches(t, out)
  {
    if t.Literal? then out + [t.b] else Copied(out, Length(t), Distance(t))
  }

  ghost predicate TokensWf(ts: seq<Token>, out: seq<Byte>) {
    ts == [] || (Wf(ts[0]) && Reaches(ts[0], out) && TokensWf(ts[1..], Apply(ts[0], out)))
  }

  /** The output after the tokens, given the output before them. */
  ghost function Denote(ts: seq<Token>, out: seq<Byte>): seq<Byte>
    requires TokensWf(ts, out)
  {
    if ts == [] then out else Denote(ts[1..], Apply(ts[0], out))
  }

  predicate Coded(lens: seq<CodeLen>, i: nat) {
    i < |lens| && lens[i] > 0
  }

  predicate TokenCoded(t: Token, ll: seq<CodeLen>, dl: seq<CodeLen>) {
    if t.Literal? then Coded(ll, t.b) else Coded(ll, LenSym(t)) && Coded(dl, t.dslot)
  }

  ghost predicate TokensCoded(ts: seq<Token>, ll: seq<CodeLen>, dl: seq<CodeLen>) {
    Coded(ll, 256) && forall t :: t in ts ==> TokenCoded(t, ll, dl)
  }

  /** What follows a match's symbol: length extra bits, distance symbol, distance extra bits. */
  function EncodeMatch(t: Token, dl: seq<CodeLen>): seq<bool>
    requires t.Match? && Wf(t) && Coded(dl, t.dslot)
  {
    LsbFirst(t.lextra, LenExtra(t.lslot)) + (CodeBits(dl, t.dslot) + LsbFirst(t.dextra, DistExtra(t.dslot)))
  }

  function EncodeToken(t: Token, ll: seq<CodeLen>, dl: seq<CodeLen>): seq<bool>
    requires Wf(t) && TokenCoded(t, ll, dl)
  {
    if t.Literal? then CodeBits(ll, t.b)
    else CodeBits(ll, LenSym(t)) + EncodeMatch(t, dl)
  }

  ghost function EncodeTokens(ts: seq<Token>, out: seq<Byte>, ll: seq<CodeLen>, dl: seq<CodeLen>): seq<bool>
    requires TokensWf(ts, out) && TokensCoded(ts, ll, dl)
  {
    if ts == [] then CodeBits(ll, 256)
    else EncodeToken(ts[0], ll, dl) + EncodeTokens(ts[1..], Apply(ts[0], out), ll, dl)
  }

  lemma ReadsNumber(s: seq<bool>, p: nat, q: nat, v: nat, n: nat)
    requires v < Pow2(n) && Span(s, p, q, LsbFirst(v, n))
    ensures GetBits(s, p, n) == Res(v, q)
  {
    ValueAt(s, p, v, n);
  }

  lemma ReadsSymbol(s: seq<bool>, p: nat, q: nat, lens: seq<CodeLen>, i: nat)
    requires Prefixed(lens) && Coded(lens, i) && Span(s, p, q, CodeBits(lens, i))
    ensures Decode(lens, s, p) == Res(i, q)
  {
    DecodeIffCodeword(lens, s, p, i);
  }

  lemma ReadsLength(s: seq<bool>, p: nat, q: nat, t: Token)
    requires t.Match? && Wf(t) && Span(s, p, q, LsbFirst(t.lextra, LenExtra(t.lslot)))
    ensures GetLen(s, p, LenSym(t)) == Res(Length(t), q)
  {
    LengthTable(t.lslot);
    ReadsNumber(s, p, q, t.lextra, LenExtra(t.lslot));
  }

  lemma ReadsDistance(s: seq<bool>, p: nat, q: nat, t: Token, dl: seq<CodeLen>)
    requires t.Match? && Wf(t) && Prefixed(dl) && Coded(dl, t.dslot)
    requires Span(s, p, q, CodeBits(dl, t.dslot) + LsbFirst(t.dextra, DistExtra(t.dslot)))
    ensures GetDist(s, p, dl) == Res(Distance(t), q)
  {
    var m := SpanSplit(s, p, q, CodeBits(dl, t.dslot), LsbFirst(t.dextra, DistExtra(t.dslot)));
    ReadsSymbol(s, p, m, dl, t.dslot);
    DistanceTable(t.dslot);
    ReadsNumber(s, m, q, t.dextra, DistExtra(t.dslot));
  }

  lemma ReadsMatch(s: seq<bool>, p: nat, q: nat, out: seq<Byte>, t: Token, dl: seq<CodeLen>)
    requires t.Match? && Wf(t) && Reaches(t, out) && Prefixed(dl) && Coded(dl, t.dslot)
    requires Span(s, p, q, EncodeMatch(t, dl))
    ensures DoSym(s, p, out, dl, LenSym(t)) == OutRes(0, q, Apply(t, out))
  {
    var m := SpanSplit(s, p, q, LsbFirst(t.lextra, LenExtra(t.lslot)),
                       CodeBits(dl, t.dslot) + LsbFirst(t.dextra, DistExtra(t.dslot)));
    ReadsLength(s, p, m, t);
    ReadsDistance(s, m, q, t, dl);
    MatchStep(s, p, out, dl, LenSym(t), Res(Length(t), m), Res(Distance(t), q));
  }

  /** One token: its symbol is decoded and carrying it out appends its bytes. */
  lemma ReadsToken(s: seq<bool>, p: nat, q: nat, out: seq<Byte>, t: Token, ll: seq<CodeLen>, dl: seq<CodeLen>)
    returns (d: Res)
    requires Wf(t) && Reaches(t, out) && TokenCoded(t, ll, dl) && Prefixed(ll) && Prefixed(dl)
    requires Span(s, p, q, EncodeToken(t, ll, dl))
    ensures d == Decode(ll, s, p) && d.v >= 0
    ensures DoSym(s, d.p, out, dl, d.v) == OutRes(0, q, Apply(t, out))
  {
    if t.Literal? {
      ReadsSymbol(s, p, q, ll, t.b);
      d := Res(t.b, q);
    } else {
      var m := SpanSplit(s, p, q, CodeBits(ll, LenSym(t)), EncodeMatch(t, dl));
      ReadsSymbol(s, p, m, ll, LenSym(t));
      ReadsMatch(s, m, q, out, t, dl);
      d := Res(LenSym(t), m);
    }
  }

  /** Compressed data: the decode loop appends what the tokens denote and stops after them. */
  lemma {:induction false} RunLoopInverts(s: seq<bool>, p: nat, q: nat, out: seq<Byte>, ts: seq<Token>,
                                          ll: seq<CodeLen>, dl: seq<CodeLen>, last: nat)
    requires TokensWf(ts, out) && TokensCoded(ts, ll, dl) && Prefixed(ll) && Prefixed(dl)
    requires Span(s, p, q, EncodeTokens(ts, out, ll, dl))
    ensures RunLoop(s, p, out, ll, dl, last) == OutRes(last, q, Denote(ts, out))
    decreases |ts|
  {
    if ts == [] {
      ReadsSymbol(s, p, q, ll, 256);
    } else {
      var next := Apply(ts[0], out);
      var m := SpanSplit(s, p, q, EncodeToken(ts[0], ll, dl), EncodeTokens(ts[1..], next, ll, dl));
      var d := ReadsToken(s, p, m, out, ts[0], ll, dl);
      RunLoopInverts(s, m, q, next, ts[1..], ll, dl, last);
      LoopStep(s, p, out, ll, dl, last, d, OutRes(0, m, next));
    }
  }

  // ---------------------------------------------------------- dynamic header

  /** The alphabet in which code lengths are sent: lengths and three kinds of run. */
  datatype Item = Len(l: CodeLen) | Repeat(n: nat) | Zeros(n: nat) | LongZeros(n: nat)

  predicate ItemWf(it: Item, acc: seq<CodeLen>) {
    match it
    case Len(_) => true
    case Repeat(n) => 3 <= n <= 6 && acc != []
    case Zeros(n) => 3 <= n <= 10
    case LongZeros(n) => 11 <= n <= 138
  }

  function ExpandItem(it: Item, acc: seq<CodeLen>): (r: seq<CodeLen>)
    requires ItemWf(it, acc)
    ensures |acc| < |r|
  {
    match it
    case Len(l) => acc + [l]
    case Repeat(n) => acc + seq(n, _ => acc[|acc| - 1])
    case Zeros(n) => acc + seq(n, _ => 0)
    case LongZeros(n) => acc + seq(n, _ => 0)
  }

  ghost predicate ItemsWf(its: seq<Item>, acc: seq<CodeLen>) {
    its == [] || (ItemWf(its[0], acc) && ItemsWf(its[1..], ExpandItem(its[0], acc)))
  }

  /** The lengths the items stand for, after those already known. */
  ghost function Expand(its: seq<Item>, acc: seq<CodeLen>): (r: seq<CodeLen>)
    requires ItemsWf(its, acc)
    ensures |r| >= |acc| && (its != [] ==> |r| > |acc|)
  {
    if its == [] then acc else Expand(its[1..], ExpandItem(its[0], acc))
  }

  function ItemSym(it: Item): (r: nat)
    ensures r < 19
  {
    match it
    case Len(l) => l
    case Repeat(_) => 16
    case Zeros(_) => 17
    case LongZeros(_) => 18
  }

  function ItemExtra(it: Item): seq<bool>
  {
    match it
    case Len(_) => []
    case Repeat(n) => if n >= 3 then LsbFirst(n - 3, 2) else []
    case Zeros(n) => if n >= 3 then LsbFirst(n - 3, 3) else []
    case LongZeros(n) => if n >= 11 then LsbFirst(n - 11, 7) else []
  }

  ghost predicate ItemsCoded(its: seq<Item>, cl: seq<CodeLen>) {
    forall it :: it in its ==> Coded(cl, ItemSym(it))
  }

  function EncodeItem(it: Item, cl: seq<CodeLen>): seq<bool>
    requires Coded(cl, ItemSym(it))
  {
    CodeBits(cl, ItemSym(it)) + ItemExtra(it)
  }

  ghost function EncodeItems(its: seq<Item>, cl: seq<CodeLen>): seq<bool>
    requires ItemsCoded(its, cl)
  {
    if its == [] then []
    else EncodeItem(its[0], cl) + EncodeItems(its[1..], cl)
  }

  /** A run that is not too long is not cut. */
  lemma Expands(it: Item, acc: seq<CodeLen>, total: nat, n: nat, val: CodeLen)
    requires ItemWf(it, acc) && |ExpandItem(it, acc)| <= total
    requires if it.Repeat? then n == it.n && val == acc[|acc| - 1]
             else (it.Zeros? || it.LongZeros?) && n == it.n && val == 0
    ensures FillRep(acc, total, n, val) == ExpandItem(it, acc)
  {
  }

  /** The number behind one of the run symbols: w bits with what exceeds the shortest run. */
  lemma ReadsTimes(s: seq<bool>, p: nat, q: nat, acc: seq<CodeLen>, total: nat, sym: nat, w: nat, extra: nat, n: nat)
    requires |acc| <= total && extra < Pow2(w) && Span(s, p, q, LsbFirst(extra, w))
    requires if sym == 16 then acc != [] && w == 2 && n == extra + 3
             else if sym == 17 then w == 3 && n == extra + 3 else sym == 18 && w == 7 && n == extra + 11
    ensures RepLen(s, p, acc, total, sym)
         == LensRes(true, q, FillRep(acc, total, n, if sym == 16 then acc[|acc| - 1] else 0))
  {
    ReadsNumber(s, p, q, extra, w);
  }

  lemma ReadsRun(s: seq<bool>, p: nat, q: nat, acc: seq<CodeLen>, total: nat, it: Item)
    requires ItemWf(it, acc) && !it.Len? && Span(s, p, q, ItemExtra(it)) && |ExpandItem(it, acc)| <= total
    ensures RepLen(s, p, acc, total, ItemSym(it)) == LensRes(true, q, ExpandItem(it, acc))
  {
    match it
    case Repeat(n) =>
      ReadsTimes(s, p, q, acc, total, 16, 2, n - 3, n);
      Expands(it, acc, total, n, acc[|acc| - 1]);
    case Zeros(n) =>
      ReadsTimes(s, p, q, acc, total, 17, 3, n - 3, n);
      Expands(it, acc, total, n, 0);
    case LongZeros(n) =>
      assert Pow2(7) == 128;
      ReadsTimes(s, p, q, acc, total, 18, 7, n - 11, n);
      Expands(it, acc, total, n, 0);
  }

  lemma ReadsItem(s: seq<bool>, p: nat, q: nat, it: Item, cl: seq<CodeLen>, acc: seq<CodeLen>, total: nat)
    requires |cl| == 19 && Prefixed(cl) && Coded(cl, ItemSym(it)) && ItemWf(it, acc)
    requires |ExpandItem(it, acc)| <= total && Span(s, p, q, EncodeItem(it, cl))
    ensures DecodeLens(s, p, cl, acc, total) == DecodeLens(s, q, cl, ExpandItem(it, acc), total)
  {
    var m := SpanSplit(s, p, q, CodeBits(cl, ItemSym(it)), ItemExtra(it));
    ReadsSymbol(s, p, m, cl, ItemSym(it));
    if it.Len? {
      LensStepLen(s, p, cl, acc, total, Res(it.l, m));
    } else {
      ReadsRun(s, m, q, acc, total, it);
      LensStepRun(s, p, cl, acc, total, Res(ItemSym(it), m), LensRes(true, q, ExpandItem(it, acc)));
    }
  }

  lemma {:induction false} DecodeLensInverts(s: seq<bool>, p: nat, q: nat, its: seq<Item>, cl: seq<CodeLen>,
                                             acc: seq<CodeLen>, total: nat)
    requires |cl| == 19 && Prefixed(cl) && ItemsCoded(its, cl) && ItemsWf(its, acc)
    requires |Expand(its, acc)| == total && Span(s, p, q, EncodeItems(its, cl))
    ensures DecodeLens(s, p, cl, acc, total) == LensRes(true, q, Expand(its, acc))
    decreases |its|
  {
    if its == [] {
    } else {
      var next := ExpandItem(its[0], acc);
      var m := SpanSplit(s, p, q, EncodeItem(its[0], cl), EncodeItems(its[1..], cl));
      ReadsItem(s, p, m, its[0], cl, acc, total);
      DecodeLensInverts(s, m, q, its[1..], cl, next, total);
    }
  }

  /** The first nc lengths of the length code in their listed order, three bits each. */
  ghost function EncodeClLens(cl: seq<CodeLen>, i: nat, nc: nat): seq<bool>
    requires |cl| == 19 && i <= nc <= 19
    decreases nc - i
  {
    if i == nc then [] else LsbFirst(cl[Listed(i)], 3) + EncodeClLens(cl, i + 1, nc)
  }

  /** The listed order visits every position once. */
  function ClPos(k: nat): (i: nat)
    requires k < 19
    ensures i < 19 && Listed(i) == k
  {
    [3, 17, 15, 13, 11, 9, 7, 5, 4, 6, 8, 10, 12, 14, 16, 18, 0, 1, 2][k]
  }

  lemma ListedInjective(i: nat, j: nat)
    requires i < 19 && j < 19 && Listed(i) == Listed(j)
    ensures i == j
  {
  }

  ghost predicate ClLensWf(cl: seq<CodeLen>, nc: nat) {
    && |cl| == 19
    && (forall k :: 0 <= k < 19 ==> cl[k] < 8)
    && (forall i: nat :: nc <= i < 19 ==> cl[Listed(i)] == 0)
  }

  /** After i lengths have been read: those are in place and the rest are zero. */
  ghost predicate ClLensRead(cl: seq<CodeLen>, cur: seq<CodeLen>, i: nat)
    requires |cl| == 19 && |cur| == 19
  {
    forall j: nat :: j < 19 ==> cur[Listed(j)] == if j < i then cl[Listed(j)] else 0
  }

  lemma ClLensNext(cl: seq<CodeLen>, cur: seq<CodeLen>, i: nat)
    requires |cl| == 19 && |cur| == 19 && i < 19 && ClLensRead(cl, cur, i)
    ensures ClLensRead(cl, cur[Listed(i) := cl[Listed(i)]], i + 1)
  {
    forall j: nat | j < 19 && Listed(j) == Listed(i) ensures j == i {
      ListedInjective(i, j);
    }
  }

  lemma ClLensDone(cl: seq<CodeLen>, cur: seq<CodeLen>, nc: nat)
    requires ClLensWf(cl, nc) && |cur| == 19 && ClLensRead(cl, cur, nc)
    ensures cur == cl
  {
    forall k | 0 <= k < 19 ensures cur[k] == cl[k] {
      var j := ClPos(k);
      assert Listed(j) == k;
    }
  }

  lemma {:induction false} ReadClLensInverts(s: seq<bool>, p: nat, q: nat, i: nat, nc: nat,
                                             cl: seq<CodeLen>, cur: seq<CodeLen>)
    requires i <= nc <= 19 && ClLensWf(cl, nc) && |cur| == 19 && ClLensRead(cl, cur, i)
    requires Span(s, p, q, EncodeClLens(cl, i, nc))
    ensures ReadClLens(s, p, i, nc, cur) == LensRes(true, q, cl)
    decreases nc - i
  {
    if i == nc {
      ClLensDone(cl, cur, nc);
    } else {
      var k := Listed(i);
      ListedOrder(i);
      var m := SpanSplit(s, p, q, LsbFirst(cl[k], 3), EncodeClLens(cl, i + 1, nc));
      ReadsNumber(s, p, m, cl[k], 3);
      ClLensNext(cl, cur, i);
      ReadClLensInverts(s, m, q, i + 1, nc, cl, cur[k := cl[k]]);
    }
  }

  datatype Header = Header(ll: seq<CodeLen>, dl: seq<CodeLen>, nc: nat, cl: seq<CodeLen>, items: seq<Item>)

  ghost predicate HeaderWf(h: Header) {
    && 257 <= |h.ll| <= 288 && 1 <= |h.dl| <= 32 && 4 <= h.nc <= 19 && ClLensWf(h.cl, h.nc)
    && Prefixed(h.cl) && ItemsCoded(h.items, h.cl)
    && ItemsWf(h.items, []) && Expand(h.items, []) == h.ll + h.dl
  }

  // The three counts of the header.
  ghost function HLit(h: Header): nat requires HeaderWf(h) { |h.ll| - 257 }
  ghost function HDist(h: Header): nat requires HeaderWf(h) { |h.dl| - 1 }
  ghost function HCLen(h: Header): nat requires HeaderWf(h) { h.nc - 4 }

  ghost function EncodeLengthCode(h: Header): seq<bool>
    requires HeaderWf(h)
  {
    EncodeClLens(h.cl, 0, h.nc) + EncodeItems(h.items, h.cl)
  }

  ghost function EncodeHeader(h: Header): seq<bool>
    requires HeaderWf(h)
  {
    LsbFirst(HLit(h), 5) + (LsbFirst(HDist(h), 5) + (LsbFirst(HCLen(h), 4) + EncodeLengthCode(h)))
  }

  lemma ReadsLengthCode(s: seq<bool>, p: nat, q: nat, h: Header, total: nat) returns (m: nat)
    requires HeaderWf(h) && total == |h.ll| + |h.dl| && Span(s, p, q, EncodeLengthCode(h))
    ensures p <= m <= q && ReadClLens(s, p, 0, h.nc, NoClLens()) == LensRes(true, m, h.cl)
    ensures DecodeLens(s, m, h.cl, [], total) == LensRes(true, q, Expand(h.items, []))
  {
    m := SpanSplit(s, p, q, EncodeClLens(h.cl, 0, h.nc), EncodeItems(h.items, h.cl));
    ReadClLensInverts(s, p, m, 0, h.nc, h.cl, NoClLens());
    DecodeLensInverts(s, m, q, h.items, h.cl, [], total);
  }

  lemma ReadsCodeLengths(s: seq<bool>, p: nat, q: nat, h: Header, nl: nat, nd: nat)
    requires HeaderWf(h) && nl == |h.ll| && nd == |h.dl|
    requires Span(s, p, q, LsbFirst(HCLen(h), 4) + EncodeLengthCode(h))
    ensures ReadCodeLengths(s, p, nl, nd) == LensRes(true, q, Expand(h.items, []))
  {
    var total := nl + nd;
    var m0 := SpanSplit(s, p, q, LsbFirst(HCLen(h), 4), EncodeLengthCode(h));
    ReadsNumber(s, p, m0, HCLen(h), 4);
    var m1 := ReadsLengthCode(s, m0, q, h, total);
    CodeLengthsFrom(s, p, nl, nd, Res(HCLen(h), m0), h.nc, total,
                    LensRes(true, m1, h.cl), LensRes(true, q, Expand(h.items, [])));
  }

  /** The header reader recovers both length vectors, whatever runs were used to send them,
      and stops at the first bit of the compressed data. */
  lemma ReadDynamicInverts(s: seq<bool>, p: nat, q: nat, h: Header)
    requires HeaderWf(h) && Span(s, p, q, EncodeHeader(h))
    ensures ReadDynamic(s, p) == DynRes(true, q, h.ll, h.dl)
  {
    var nl, nd := HLit(h), HDist(h);
    var rest := LsbFirst(HCLen(h), 4) + EncodeLengthCode(h);
    var m0 := SpanSplit(s, p, q, LsbFirst(nl, 5), LsbFirst(nd, 5) + rest);
    var m1 := SpanSplit(s, m0, q, LsbFirst(nd, 5), rest);
    ReadsNumber(s, p, m0, nl, 5);
    ReadsNumber(s, m0, m1, nd, 5);
    ReadsCodeLengths(s, m1, q, h, |h.ll|, |h.dl|);
    DynamicFrom(s, p, Res(nl, m0), Res(nd, m1), h.ll, h.dl, LensRes(true, q, Expand(h.items, [])));
  }
}
