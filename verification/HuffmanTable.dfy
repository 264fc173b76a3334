/** The decoding tables of src/compress/bitread.c and the decoder that walks them. */
module HuffmanTable {
  import opened Bits
  import opened HuffmanCode
  import opened BitReader

  /** Where the symbols of length b start in the table sorted by length. */
  function FirstIdx(lens: seq<CodeLen>, b: nat): nat {
    if b <= 1 then 0 else FirstIdx(lens, b - 1) + Count(lens, b - 1)
  }

  lemma {:induction false} FirstIdxMonotone(lens: seq<CodeLen>, a: nat, b: nat)
    requires 1 <= a < b
    ensures FirstIdx(lens, a) + Count(lens, a) <= FirstIdx(lens, b)
  {
    if a == b - 1 {
    } else {
      FirstIdxMonotone(lens, a, b - 1);
    }
  }

  lemma {:induction false} FirstIdxSnoc(lens: seq<CodeLen>, l: CodeLen, b: nat)
    ensures FirstIdx(lens + [l], b) == FirstIdx(lens, b) + if 0 < l < b then 1 else 0
  {
    if b <= 1 {
    } else {
      FirstIdxSnoc(lens, l, b - 1);
      assert (lens + [l])[..|lens|] == lens;
    }
  }

  lemma {:induction false} FirstIdxBound(lens: seq<CodeLen>, b: nat)
    ensures FirstIdx(lens, b) <= |lens|
    decreases |lens|
  {
    if lens == [] {
      FirstIdxOfNone(b);
    } else {
      var n := |lens| - 1;
      FirstIdxBound(lens[..n], b);
      FirstIdxSnoc(lens[..n], lens[n], b);
      assert lens[..n] + [lens[n]] == lens;
    }
  }

  lemma {:induction false} FirstIdxOfNone(b: nat)
    ensures FirstIdx([], b) == 0
  {
    if b <= 1 {
    } else {
      FirstIdxOfNone(b - 1);
    }
  }

  /** The table slot of symbol i. */
  function Slot(lens: seq<CodeLen>, i: nat): nat
    requires i < |lens|
  {
    FirstIdx(lens, lens[i]) + Count(lens[..i], lens[i])
  }

  lemma SlotBound(lens: seq<CodeLen>, i: nat)
    requires i < |lens| && lens[i] > 0
    ensures Slot(lens, i) < |lens|
  {
    CountPrefix(lens, lens[i], i);
    FirstIdxBound(lens, lens[i] as int + 1);
  }

  lemma SlotInjective(lens: seq<CodeLen>, i: nat, j: nat)
    requires i < j < |lens| && lens[i] > 0 && lens[j] > 0
    ensures Slot(lens, i) != Slot(lens, j)
  {
    CountPrefix(lens, lens[i], i);
    CountPrefix(lens, lens[j], j);
    if lens[i] == lens[j] {
      assert lens[..j][..i] == lens[..i];
      CountPrefix(lens[..j], lens[i], i);
    } else if lens[i] < lens[j] {
      FirstIdxMonotone(lens, lens[i], lens[j]);
    } else {
      FirstIdxMonotone(lens, lens[j], lens[i]);
    }
  }

  class Huff {
    const firstCode: array<nat>
    const firstIdx: array<nat>
    const count: array<nat>
    const symbols: array<nat>
    ghost const lens: seq<CodeLen>

    ghost predicate Shape() {
      && firstCode.Length == 16 && firstIdx.Length == 16 && count.Length == 16 && symbols.Length == 320
      && firstCode != firstIdx && firstCode != count && firstIdx != count
      && symbols != firstCode && symbols != firstIdx && symbols != count
      && |lens| <= 320
    }

    ghost predicate Counted()
      requires Shape()
      reads count
    {
      count[0] == 0 && forall b :: 1 <= b < 16 ==> count[b] == Count(lens, b)
    }

    /** The table holds every symbol at its slot. */
    ghost predicate Valid()
      reads firstCode, firstIdx, count, symbols
    {
      && Shape() && Counted()
      && (forall b: nat :: 1 <= b < 16 ==> firstCode[b] == FirstCode(lens, b))
      && (forall b: nat :: 1 <= b < 16 ==> firstIdx[b] == FirstIdx(lens, b))
      && Placed(|lens|)
    }

    constructor (lengths: array<CodeLen>, nsym: nat)
      requires nsym <= lengths.Length && nsym <= 320
      ensures Valid() && lens == lengths[..nsym]
      ensures fresh(firstCode) && fresh(firstIdx) && fresh(count) && fresh(symbols)
    {
      firstCode := new nat[16](_ => 0);
      firstIdx := new nat[16](_ => 0);
      count := new nat[16](_ => 0);
      symbols := new nat[320](_ => 0);
      lens := lengths[..nsym];
      new;
      CountLengths(lengths, nsym);
      AssignCodes();
      Place(lengths, nsym);
    }

    method CountLengths(lengths: array<CodeLen>, nsym: nat)
      requires Shape() && nsym <= lengths.Length && lens == lengths[..nsym]
      requires forall b :: 0 <= b < 16 ==> count[b] == 0
      modifies count
      ensures Counted()
    {
      for i := 0 to nsym
        invariant count[0] == 0
        invariant forall b :: 1 <= b < 16 ==> count[b] == Count(lens[..i], b)
      {
        assert lens[..i + 1][..i] == lens[..i];
        var l := lengths[i];
        assert l == lens[i];
        if l > 0 && l <= 15 {
          count[l] := count[l] + 1;
        }
      }
      assert lens[..nsym] == lens;
    }

    method AssignCodes()
      requires Shape() && Counted()
      modifies firstCode
      ensures forall b: nat :: 1 <= b < 16 ==> firstCode[b] == FirstCode(lens, b)
    {
      var code := 0;
      for b := 1 to 16
        invariant code == FirstCode(lens, b)
        invariant forall c: nat :: 1 <= c < b ==> firstCode[c] == FirstCode(lens, c)
      {
        firstCode[b] := code;
        code := (code + count[b]) * 2;
      }
    }

    method Place(lengths: array<CodeLen>, nsym: nat)
      requires Shape() && Counted() && nsym <= lengths.Length && lens == lengths[..nsym]
      modifies firstIdx, symbols
      ensures forall b: nat :: 1 <= b < 16 ==> firstIdx[b] == FirstIdx(lens, b)
      ensures Placed(|lens|)
    {
      var slot := new nat[16](_ => 0);
      IndexLengths(slot);
      PlaceSymbols(lengths, nsym, slot);
    }

    method IndexLengths(slot: array<nat>)
      requires Shape() && Counted() && slot.Length == 16 && slot != firstIdx && slot != count
      modifies firstIdx, slot
      ensures forall b: nat :: 1 <= b < 16 ==> firstIdx[b] == slot[b] == FirstIdx(lens, b)
    {
      firstIdx[0] := 0;
      for b := 1 to 16
        invariant firstIdx[b - 1] == FirstIdx(lens, b - 1)
        invariant forall c: nat :: 1 <= c < b ==> firstIdx[c] == slot[c] == FirstIdx(lens, c)
      {
        firstIdx[b] := firstIdx[b - 1] + count[b - 1];
        slot[b] := firstIdx[b];
      }
    }

    ghost predicate Placed(n: nat)
      requires Shape() && n <= |lens|
      reads symbols
    {
      forall i: nat :: i < n && lens[i] > 0 ==> Slot(lens, i) < 320 && symbols[Slot(lens, i)] == i
    }

    method PlaceSymbols(lengths: array<CodeLen>, nsym: nat, slot: array<nat>)
      requires Shape() && nsym <= lengths.Length && lens == lengths[..nsym]
      requires slot.Length == 16 && slot != symbols
      requires forall b: nat :: 1 <= b < 16 ==> slot[b] == FirstIdx(lens, b)
      modifies symbols, slot
      ensures Placed(|lens|)
    {
      for i := 0 to nsym
        invariant forall b: nat :: 1 <= b < 16 ==> slot[b] == FirstIdx(lens, b) + Count(lens[..i], b)
        invariant Placed(i)
      {
        var l := lengths[i];
        CountNext(i);
        assert l == lens[i];
        if l > 0 && l <= 15 {
          SlotBound(lens, i);
          var k := slot[l];
          slot[l] := k + 1;
          PlaceOne(k, i);
        } else {
          PlacedSkip(i);
        }
      }
    }

    lemma PlacedSkip(i: nat)
      requires Shape() && i < |lens| && lens[i] == 0 && Placed(i)
      ensures Placed(i + 1)
    {
    }

    /** Slots of different symbols differ, so a placed symbol stays placed. */
    method PlaceOne(k: nat, i: nat)
      requires Shape() && i < |lens| && lens[i] > 0 && k == Slot(lens, i) < 320 && Placed(i)
      modifies symbols
      ensures Placed(i + 1)
    {
      forall j: nat | j < i && lens[j] > 0 ensures Slot(lens, j) != k {
        SlotInjective(lens, j, i);
      }
      symbols[k] := i;
    }

    lemma CountNext(i: nat)
      requires i < |lens|
      ensures forall b :: Count(lens[..i + 1], b) == Count(lens[..i], b) + if lens[i] == b then 1 else 0
    {
      assert lens[..i + 1][..i] == lens[..i];
    }

    /** The tables at b, and the symbol they give for a code within the b-bit codewords. */
    lemma Entry(b: nat, code: nat)
      requires Valid() && 1 <= b < 16
      ensures firstCode[b] == FirstCode(lens, b) && firstCode[b] + count[b] == Used(lens, b)
      ensures FirstCode(lens, b) <= code < Used(lens, b) ==>
        var k := firstIdx[b] + (code - firstCode[b]);
        k < 320 && symbols[k] == SymbolAt(lens, b, code - FirstCode(lens, b))
    {
      if FirstCode(lens, b) <= code < Used(lens, b) {
        var i := SymbolAt(lens, b, code - FirstCode(lens, b));
        assert Slot(lens, i) == firstIdx[b] + (code - firstCode[b]);
      }
    }

    /** One round of the walk. `code` never falls below firstCode[b], so its first test never
        succeeds; the second tells whether the symbol has been found. */
    lemma Walk(s: seq<bool>, p: nat, b: nat, before: nat, code: nat)
      requires Valid() && 1 <= b < 16 && Used(lens, b - 1) <= before && p < |s|
      requires code == 2 * before + Value(s, p, 1)
      ensures code >= firstCode[b]
      ensures if code < firstCode[b] + count[b] then
                var k := firstIdx[b] + (code - firstCode[b]);
                k < 320 && DecodeFrom(lens, s, p, b, before) == Res(symbols[k], p + 1)
              else Used(lens, b) <= code && DecodeFrom(lens, s, p, b, before) == DecodeFrom(lens, s, p + 1, b + 1, code)
    {
      ValueOne(s, p);
      Entry(b, code);
      if code < Used(lens, b) {
        DecodeHit(lens, s, p, b, before, code);
      } else {
        DecodeMiss(lens, s, p, b, before, code);
      }
    }

    method Decode(br: Reader) returns (sym: int)
      requires Valid() && br.Valid()
      modifies br
      ensures br.Valid()
      ensures Res(sym, br.Pos()) == HuffmanCode.Decode(lens, Stream(br.data), old(br.Pos()))
    {
      ghost var s, p := Stream(br.data), br.Pos();
      ghost var want := HuffmanCode.Decode(lens, s, p);
      var code := 0;
      for b := 1 to 16
        invariant br.Valid() && br.Pos() == p && Used(lens, b - 1) <= code
        invariant want == DecodeFrom(lens, s, p, b, code)
      {
        var bit := br.ReadBits(1);
        ghost var c := code;
        if bit < 0 {
          DecodeAtEnd(lens, s, p, b, c);
          return -1;
        }
        code := 2 * code + bit;
        Walk(s, p, b, c, code);
        if code < firstCode[b] {
          continue;
        }
        if code < firstCode[b] + count[b] {
          return symbols[firstIdx[b] + (code - firstCode[b])];
        }
        p := p + 1;
      }
      return -1;
    }
  }

  lemma ValueOne(s: seq<bool>, p: nat)
    ensures p < |s| ==> Value(s, p, 1) == BitValue(s[p])
  {
  }
}
