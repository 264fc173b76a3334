/** Canonical Huffman codes (section 3.2.2 of RFC 1951): the code a vector of lengths denotes,
    the decoder src/compress/bitread.c runs for it, and their agreement. */
module HuffmanCode {
  import opened Arith
  import opened Bits

  /** Length of a symbol's codeword; 0 for a symbol that is not used. */
  type CodeLen = l: int | 0 <= l < 16

  // ---------------------------------------------------------------- the code

  /** How many symbols have length b. */
  function Count(lens: seq<CodeLen>, b: int): nat {
    if lens == [] then 0
    else Count(lens[..|lens| - 1], b) + if lens[|lens| - 1] == b then 1 else 0
  }

  /** One more than the last b-bit prefix taken by codewords of at most b bits. */
  function Used(lens: seq<CodeLen>, b: nat): nat {
    if b == 0 then 0 else 2 * Used(lens, b - 1) + Count(lens, b)
  }

  function FirstCode(lens: seq<CodeLen>, b: nat): nat
    requires b >= 1
  {
    2 * Used(lens, b - 1)
  }

  /** Codewords of one length are consecutive, in symbol order. */
  function Codeword(lens: seq<CodeLen>, i: nat): nat
    requires i < |lens| && lens[i] > 0
  {
    FirstCode(lens, lens[i]) + Count(lens[..i], lens[i])
  }

  /** The codeword as it appears in the bit stream: most significant bit first. */
  function CodeBits(lens: seq<CodeLen>, i: nat): seq<bool>
    requires i < |lens| && lens[i] > 0
  {
    MsbFirst(Codeword(lens, i), lens[i])
  }

  /** The Kraft sum, scaled by 2^15. */
  function Kraft(lens: seq<CodeLen>): nat {
    if lens == [] then 0
    else
      var l := lens[|lens| - 1];
      Kraft(lens[..|lens| - 1]) + if l > 0 then Pow2(15 - l) else 0
  }

  /** The lengths form a prefix code: their Kraft sum is at most 1. */
  predicate Prefixed(lens: seq<CodeLen>) {
    Kraft(lens) <= Pow2(15)
  }

  // ------------------------------------------------------------- the decoder

  /** The k-th symbol of length b. */
  function SymbolAt(lens: seq<CodeLen>, b: int, k: nat): (i: nat)
    requires k < Count(lens, b)
    ensures i < |lens| && lens[i] == b && Count(lens[..i], b) == k
  {
    var n := |lens| - 1;
    if lens[n] == b && Count(lens[..n], b) == k then n
    else
      var i := SymbolAt(lens[..n], b, k);
      assert lens[..n][..i] == lens[..i];
      i
  }

  /** Decoding with b - 1 bits already read, of value `code`. Every value that the
      shorter lengths do not account for is at least Used(lens, b - 1). */
  function DecodeFrom(lens: seq<CodeLen>, s: seq<bool>, p: nat, b: nat, code: nat): (r: Res)
    requires 1 <= b <= 16 && Used(lens, b - 1) <= code
    ensures r.v >= 0 ==> p < r.p <= |s| && r.v < |lens|
    ensures r.v >= -1 && p <= r.p && (p <= |s| ==> r.p <= |s|)
    decreases s, 16 - b
  {
    if b == 16 || p >= |s| then Res(-1, p)
    else
      var c := 2 * code + BitValue(s[p]);
      if c < FirstCode(lens, b) + Count(lens, b)
      then Res(SymbolAt(lens, b, c - FirstCode(lens, b)), p + 1)
      else DecodeFrom(lens, s, p + 1, b + 1, c)
  }

  function Decode(lens: seq<CodeLen>, s: seq<bool>, p: nat): (r: Res)
    ensures r.v >= 0 ==> p < r.p <= |s| && r.v < |lens|
    ensures r.v >= -1 && p <= r.p && (p <= |s| ==> r.p <= |s|)
  {
    DecodeFrom(lens, s, p, 1, 0)
  }

  // -------------------------------------------------- codewords and prefixes

  function Shr(w: nat, n: nat): nat {
    if n == 0 then w else Shr(w / 2, n - 1)
  }

  lemma {:induction false} ShrStep(w: nat, n: nat)
    requires n > 0
    ensures Shr(w, n) == Shr(w, n - 1) / 2
  {
    if n == 1 {
    } else {
      ShrStep(w / 2, n - 1);
    }
  }

  lemma {:induction false} ShrAll(w: nat, n: nat)
    requires w < Pow2(n)
    ensures Shr(w, n) == 0
  {
    if n == 0 {
    } else {
      ShrAll(w / 2, n - 1);
    }
  }

  lemma {:induction false} MsbBit(w: nat, n: nat, k: nat)
    requires k < n
    ensures MsbFirst(w, n)[k] == (Shr(w, n - 1 - k) % 2 == 1)
  {
    if k == n - 1 {
    } else {
      MsbBit(w / 2, n - 1, k);
    }
  }

  lemma {:induction false} CountPrefix(lens: seq<CodeLen>, b: int, i: nat)
    requires i <= |lens|
    ensures Count(lens[..i], b) <= Count(lens, b)
    ensures i < |lens| && lens[i] == b ==> Count(lens[..i], b) < Count(lens, b)
    decreases |lens|
  {
    if i < |lens| {
      var n := |lens| - 1;
      assert lens[..n][..i] == lens[..i];
      CountPrefix(lens[..n], b, i);
    } else {
      assert lens[..i] == lens;
    }
  }

  lemma {:induction false} SymbolAtUnique(lens: seq<CodeLen>, b: int, i: nat)
    requires i < |lens| && lens[i] == b
    ensures Count(lens[..i], b) < Count(lens, b)
    ensures SymbolAt(lens, b, Count(lens[..i], b)) == i
    decreases |lens|
  {
    CountPrefix(lens, b, i);
    var n := |lens| - 1;
    if i < n {
      assert lens[..n][..i] == lens[..i];
      SymbolAtUnique(lens[..n], b, i);
    }
  }

  /** The b-bit prefix of a longer codeword lies beyond the codewords of b bits. */
  lemma {:induction false} PrefixBeyond(lens: seq<CodeLen>, i: nat, b: nat)
    requires i < |lens| && b < lens[i]
    ensures Shr(Codeword(lens, i), lens[i] - b) >= Used(lens, b)
    decreases lens[i] - b
  {
    var w, n := Codeword(lens, i), lens[i] - b;
    ShrStep(w, n);
    if n > 1 { PrefixBeyond(lens, i, b + 1); }
  }

  /** Reading one more bit of a codeword shifts it into the prefix read so far. */
  lemma CodewordBit(lens: seq<CodeLen>, s: seq<bool>, p: nat, i: nat, b: nat)
    requires i < |lens| && 1 <= b <= lens[i] && At(s, p, CodeBits(lens, i))
    ensures p + b <= |s|
    ensures 2 * Shr(Codeword(lens, i), lens[i] - (b - 1)) + BitValue(s[p + b - 1])
         == Shr(Codeword(lens, i), lens[i] - b)
  {
    var w, n := Codeword(lens, i), lens[i];
    MsbBit(w, n, b - 1);
    assert s[p + (b - 1)] == CodeBits(lens, i)[b - 1];
    ShrStep(w, n - (b - 1));
  }

  lemma {:induction false} DecodeFromCodeword(lens: seq<CodeLen>, s: seq<bool>, p: nat, i: nat, b: nat, code: nat)
    requires i < |lens| && 1 <= b <= lens[i] && At(s, p, CodeBits(lens, i))
    requires code == Shr(Codeword(lens, i), lens[i] - (b - 1)) && Used(lens, b - 1) <= code
    ensures DecodeFrom(lens, s, p + b - 1, b, code) == Res(i, p + lens[i])
    decreases lens[i] - b
  {
    CodewordBit(lens, s, p, i, b);
    var c := 2 * code + BitValue(s[p + b - 1]);
    if b < lens[i] {
      PrefixBeyond(lens, i, b);
      DecodeFromCodeword(lens, s, p, i, b + 1, c);
    } else {
      SymbolAtUnique(lens, b, i);
    }
  }

  /** A codeword that fits its length decodes to its symbol, whatever follows it. */
  lemma DecodeCodeword(lens: seq<CodeLen>, s: seq<bool>, p: nat, i: nat)
    requires i < |lens| && lens[i] > 0 && Codeword(lens, i) < Pow2(lens[i])
    requires At(s, p, CodeBits(lens, i))
    ensures Decode(lens, s, p) == Res(i, p + lens[i])
  {
    ShrAll(Codeword(lens, i), lens[i]);
    DecodeFromCodeword(lens, s, p, i, 1, 0);
  }

  lemma ExtendPrefix(s: seq<bool>, p: nat, k: nat, code: nat)
    requires p + k < |s| && At(s, p, MsbFirst(code, k))
    ensures At(s, p, MsbFirst(2 * code + BitValue(s[p + k]), k + 1))
  {
    var c := 2 * code + BitValue(s[p + k]);
    assert c / 2 == code && (c % 2 == 1) == s[p + k];
    assert MsbFirst(c, k + 1) == MsbFirst(code, k) + [s[p + k]];
  }

  lemma ExtendFits(code: nat, bit: bool, k: nat)
    requires code < Pow2(k)
    ensures 2 * code + BitValue(bit) < Pow2(k + 1)
  {
  }

  lemma DecodeAtEnd(lens: seq<CodeLen>, s: seq<bool>, p: nat, b: nat, code: nat)
    requires 1 <= b < 16 && Used(lens, b - 1) <= code && p >= |s|
    ensures DecodeFrom(lens, s, p, b, code) == Res(-1, p)
  {
  }

  lemma DecodeHit(lens: seq<CodeLen>, s: seq<bool>, p: nat, b: nat, code: nat, c: nat)
    requires 1 <= b < 16 && Used(lens, b - 1) <= code && p < |s|
    requires c == 2 * code + BitValue(s[p]) && c < Used(lens, b)
    ensures DecodeFrom(lens, s, p, b, code) == Res(SymbolAt(lens, b, c - FirstCode(lens, b)), p + 1)
  {
  }

  lemma DecodeMiss(lens: seq<CodeLen>, s: seq<bool>, p: nat, b: nat, code: nat, c: nat)
    requires 1 <= b < 16 && Used(lens, b - 1) <= code && p < |s|
    requires c == 2 * code + BitValue(s[p]) && c >= Used(lens, b)
    ensures DecodeFrom(lens, s, p, b, code) == DecodeFrom(lens, s, p + 1, b + 1, c)
  {
  }

  /** What is decoded at p, if anything, is the symbol whose codeword stands there. */
  ghost predicate Sound(lens: seq<CodeLen>, s: seq<bool>, p: nat, r: Res)
    requires r.v >= 0 ==> r.v < |lens|
  {
    r.v >= 0 ==> lens[r.v] > 0 && Codeword(lens, r.v) < Pow2(lens[r.v])
                 && At(s, p, CodeBits(lens, r.v)) && r.p == p + lens[r.v]
  }

  /** A code of b bits within those of that length is the codeword of its symbol. */
  lemma HitSound(lens: seq<CodeLen>, s: seq<bool>, p: nat, b: nat, c: nat)
    requires 1 <= b < 16 && At(s, p, MsbFirst(c, b)) && c < Pow2(b) && FirstCode(lens, b) <= c < Used(lens, b)
    ensures Sound(lens, s, p, Res(SymbolAt(lens, b, c - FirstCode(lens, b)), p + b))
  {
    assert Codeword(lens, SymbolAt(lens, b, c - FirstCode(lens, b))) == c;
  }

  /** Where the walk ends with a symbol, it has read a code among those of that length. */
  ghost predicate HitBy(lens: seq<CodeLen>, s: seq<bool>, p: nat, r: Res, b: nat, c: nat) {
    && 1 <= b < 16 && At(s, p, MsbFirst(c, b)) && c < Pow2(b) && FirstCode(lens, b) <= c < Used(lens, b)
    && r == Res(SymbolAt(lens, b, c - FirstCode(lens, b)), p + b)
  }

  /** One step: the code grows by a bit, and is a hit or the walk goes on. */
  lemma WalkStep(lens: seq<CodeLen>, s: seq<bool>, p: nat, q: nat, k: nat, b: nat, code: nat, c: nat)
    requires 1 <= b < 16 && b == k + 1 && q == p + k < |s| && c == 2 * code + BitValue(s[q])
    requires Used(lens, k) <= code < Pow2(k) && At(s, p, MsbFirst(code, k))
    ensures At(s, p, MsbFirst(c, b)) && FirstCode(lens, b) <= c < Pow2(b)
    ensures if c < Used(lens, b) then HitBy(lens, s, p, DecodeFrom(lens, s, q, b, code), b, c)
            else DecodeFrom(lens, s, q, b, code) == DecodeFrom(lens, s, q + 1, b + 1, c)
  {
    ExtendPrefix(s, p, k, code);
    ExtendFits(code, s[q], k);
    if c < Used(lens, b) { DecodeHit(lens, s, q, b, code, c); } else { DecodeMiss(lens, s, q, b, code, c); }
  }

  lemma {:induction false} WalkHits(lens: seq<CodeLen>, s: seq<bool>, p: nat, q: nat, k: nat, b: nat, code: nat, r: Res)
    returns (l: nat, c: nat)
    requires 1 <= b <= 16 && b == k + 1 && q == p + k
    requires Used(lens, k) <= code < Pow2(k) && At(s, p, MsbFirst(code, k))
    requires r == DecodeFrom(lens, s, q, b, code) && r.v >= 0
    ensures HitBy(lens, s, p, r, l, c)
    decreases 16 - b
  {
    c := 2 * code + BitValue(s[q]);
    WalkStep(lens, s, p, q, k, b, code, c);
    if c < Used(lens, b) {
      l := b;
    } else {
      l, c := WalkHits(lens, s, p, q + 1, b, b + 1, c, r);
    }
  }

  /** Whatever the lengths, a decoded symbol's codeword is what was consumed. */
  lemma DecodeSound(lens: seq<CodeLen>, s: seq<bool>, p: nat)
    requires p <= |s|
    ensures Sound(lens, s, p, Decode(lens, s, p))
  {
    var r := Decode(lens, s, p);
    if r.v >= 0 {
      var l, c := WalkHits(lens, s, p, p, 0, 1, 0, r);
      HitSound(lens, s, p, l, c);
    }
  }

  // ------------------------------------------------------ the Kraft condition

  lemma {:induction false} UsedSnoc(lens: seq<CodeLen>, l: CodeLen, b: nat)
    ensures Used(lens + [l], b) == Used(lens, b) + if 0 < l <= b then Pow2(b - l) else 0
  {
    if b == 0 {
    } else {
      UsedSnoc(lens, l, b - 1);
      assert (lens + [l])[..|lens|] == lens;
    }
  }

  /** The Kraft sum is what the code construction has used up at 15 bits. */
  lemma {:induction false} KraftIsUsed(lens: seq<CodeLen>)
    ensures Kraft(lens) == Used(lens, 15)
    decreases |lens|
  {
    if lens == [] {
      UsedOfNone(15);
    } else {
      var n := |lens| - 1;
      KraftIsUsed(lens[..n]);
      UsedSnoc(lens[..n], lens[n], 15);
      assert lens[..n] + [lens[n]] == lens;
    }
  }

  lemma {:induction false} UsedOfNone(b: nat)
    ensures Used([], b) == 0
  {
    if b == 0 {
    } else {
      UsedOfNone(b - 1);
    }
  }

  lemma {:induction false} UsedGrows(lens: seq<CodeLen>, a: nat, b: nat)
    requires a <= b
    ensures Used(lens, a) * Pow2(b - a) <= Used(lens, b)
    ensures (forall l :: a < l <= b ==> Count(lens, l) == 0) ==> Used(lens, a) * Pow2(b - a) == Used(lens, b)
    decreases b
  {
    if a == b {
    } else {
      UsedGrows(lens, a, b - 1);
      Doubled(Used(lens, a), b - a, b - 1 - a);
    }
  }

  lemma Doubled(x: nat, n: nat, m: nat)
    requires n == m + 1
    ensures x * Pow2(n) == 2 * (x * Pow2(m))
  {
    var p := Pow2(m);
    assert x * (2 * p) == 2 * (x * p);
  }

  lemma CodewordFits(lens: seq<CodeLen>, i: nat)
    requires i < |lens| && lens[i] > 0 && Prefixed(lens)
    ensures Codeword(lens, i) < Pow2(lens[i])
  {
    var l := lens[i];
    KraftIsUsed(lens);
    CountPrefix(lens, l, i);
    UsedGrows(lens, l, 15);
    Pow2Add(l, 15 - l);
    if Used(lens, l) > Pow2(l) {
      MulStrict(Pow2(l), Used(lens, l), Pow2(15 - l));
    }
  }

  lemma {:induction false} LongestLength(lens: seq<CodeLen>, b: nat) returns (l: nat)
    requires Used(lens, b) > 0
    ensures 0 < l <= b && Count(lens, l) > 0
    ensures forall k :: l < k <= b ==> Count(lens, k) == 0
  {
    if Count(lens, b) > 0 {
      l := b;
    } else {
      l := LongestLength(lens, b - 1);
    }
  }

  /** When the lengths oversubscribe the code, some codeword does not fit its length. */
  lemma Oversubscribed(lens: seq<CodeLen>) returns (i: nat)
    requires !Prefixed(lens)
    ensures i < |lens| && lens[i] > 0 && Codeword(lens, i) >= Pow2(lens[i])
  {
    KraftIsUsed(lens);
    var l := LongestLength(lens, 15);
    UsedGrows(lens, l, 15);
    Exceeds(Used(lens, l), l, 15 - l);
    i := SymbolAt(lens, l, Count(lens, l) - 1);
  }

  /** What exceeds 2^15 when scaled up exceeds 2^l before. */
  lemma Exceeds(x: nat, l: nat, k: nat)
    requires l + k == 15 && x * Pow2(k) > Pow2(15)
    ensures x > Pow2(l)
  {
    Pow2Add(l, k);
    if x <= Pow2(l) { MulMonotone(x, Pow2(l), Pow2(k)); }
  }

  // --------------------------------------------------- the canonical order

  /** Used symbol i has a codeword before that of j: shorter ones first, then by symbol. */
  predicate Before(lens: seq<CodeLen>, i: nat, j: nat)
    requires i < |lens| && j < |lens|
  {
    lens[i] > 0 && (lens[i] < lens[j] || (lens[i] == lens[j] && i < j))
  }

  lemma {:induction false} CountZero(lens: seq<CodeLen>, b: int)
    requires forall k :: 0 <= k < |lens| ==> lens[k] != b
    ensures Count(lens, b) == 0
  {
    if lens == [] {
    } else {
      CountZero(lens[..|lens| - 1], b);
    }
  }

  lemma {:induction false} CountOne(lens: seq<CodeLen>, i: nat, j: nat)
    requires i < j <= |lens| && forall k :: i < k < j ==> lens[k] != lens[i]
    ensures Count(lens[..j], lens[i]) == Count(lens[..i], lens[i]) + 1
  {
    assert lens[..j][..j - 1] == lens[..j - 1];
    if j == i + 1 {
    } else {
      CountOne(lens, i, j - 1);
    }
  }

  lemma {:induction false} UsedZero(lens: seq<CodeLen>, b: nat)
    requires forall l :: 0 < l <= b ==> Count(lens, l) == 0
    ensures Used(lens, b) == 0
  {
    if b == 0 {
    } else {
      UsedZero(lens, b - 1);
    }
  }

  /** The rules of section 3.2.2: the first codeword is all zeros... */
  lemma FirstCodeword(lens: seq<CodeLen>, j: nat)
    requires j < |lens| && lens[j] > 0 && forall k: nat :: k < |lens| ==> !Before(lens, k, j)
    ensures Codeword(lens, j) == 0
  {
    forall l | 0 < l < lens[j] ensures Count(lens, l) == 0 {
      forall k: nat | k < |lens| ensures lens[k] != l { assert !Before(lens, k, j); }
      CountZero(lens, l);
    }
    UsedZero(lens, lens[j] - 1);
    forall k: nat | k < j ensures lens[..j][k] != lens[j] { assert !Before(lens, k, j); }
    CountZero(lens[..j], lens[j]);
  }

  /** ... and every other one is the next number after the one before it, with zeros appended up to
      its own length. The two leave no choice of codewords. */
  lemma NextCodeword(lens: seq<CodeLen>, i: nat, j: nat)
    requires i < |lens| && j < |lens| && Before(lens, i, j)
    requires forall k: nat :: k < |lens| && Before(lens, i, k) ==> !Before(lens, k, j)
    ensures Codeword(lens, j) == (Codeword(lens, i) + 1) * Pow2(lens[j] - lens[i])
  {
    if lens[i] == lens[j] {
      forall k: nat | i < k < j ensures lens[k] != lens[i] { assert !Before(lens, i, k) || !Before(lens, k, j); }
      CountOne(lens, i, j);
      assert Pow2(0) == 1;
    } else {
      NextLonger(lens, i, j, lens[i], lens[j]);
    }
  }

  lemma NextLonger(lens: seq<CodeLen>, i: nat, j: nat, a: nat, b: nat)
    requires i < |lens| && j < |lens| && 0 < a == lens[i] < lens[j] == b
    requires forall k: nat :: k < |lens| && Before(lens, i, k) ==> !Before(lens, k, j)
    ensures Codeword(lens, j) == (Codeword(lens, i) + 1) * Pow2(b - a)
  {
    forall k: nat | i < k < |lens| ensures lens[k] != lens[i] { assert Before(lens, i, k) ==> !Before(lens, k, j); }
    CountOne(lens, i, |lens|);
    assert lens[..|lens|] == lens;
    forall k: nat | k < j ensures lens[..j][k] != b { assert Before(lens, i, k) ==> !Before(lens, k, j); }
    CountZero(lens[..j], b);
    forall l | a < l <= b - 1 ensures Count(lens, l) == 0 {
      forall k: nat | k < |lens| ensures lens[k] != l { assert Before(lens, i, k) ==> !Before(lens, k, j); }
      CountZero(lens, l);
    }
    UsedGrows(lens, a, b - 1);
    Doubled(Used(lens, a), b - a, b - 1 - a);
  }

  // ------------------------------------------------------------ main results

  /** For a prefix code, decoding at p yields symbol i exactly when i's codeword is at p. */
  lemma DecodeIffCodeword(lens: seq<CodeLen>, s: seq<bool>, p: nat, i: nat)
    requires Prefixed(lens) && p <= |s| && i < |lens| && lens[i] > 0
    ensures At(s, p, CodeBits(lens, i)) <==> Decode(lens, s, p) == Res(i, p + lens[i])
    ensures At(s, p, CodeBits(lens, i)) <==> Decode(lens, s, p).v == i
  {
    DecodeSound(lens, s, p);
    CodewordFits(lens, i);
    if At(s, p, CodeBits(lens, i)) {
      DecodeCodeword(lens, s, p, i);
    }
  }

  /** No codeword of a prefix code starts another one. */
  lemma PrefixFree(lens: seq<CodeLen>, i: nat, j: nat)
    requires Prefixed(lens) && i < |lens| && j < |lens| && lens[i] > 0 && lens[j] > 0
    requires CodeBits(lens, i) <= CodeBits(lens, j)
    ensures i == j
  {
    var s := CodeBits(lens, j);
    DecodeIffCodeword(lens, s, 0, i);
    DecodeIffCodeword(lens, s, 0, j);
  }

  ghost predicate Decodable(lens: seq<CodeLen>, i: int) {
    exists s: seq<bool> :: Decode(lens, s, 0).v == i
  }

  /** The decoder does not reject oversubscribed lengths; what it loses is exactly this:
      every used symbol can be decoded if and only if the Kraft sum is at most 1. */
  lemma AllDecodableIffPrefixed(lens: seq<CodeLen>)
    ensures Prefixed(lens) <==> forall i: nat :: i < |lens| && lens[i] > 0 ==> Decodable(lens, i)
  {
    if Prefixed(lens) {
      forall i: nat | i < |lens| && lens[i] > 0 ensures Decodable(lens, i) {
        var s := CodeBits(lens, i);
        DecodeIffCodeword(lens, s, 0, i);
      }
    } else {
      var i := Oversubscribed(lens);
      forall s: seq<bool> ensures Decode(lens, s, 0).v != i {
        DecodeSound(lens, s, 0);
      }
      assert !Decodable(lens, i);
    }
  }
}
