/** Bytes, bits and the order in which DEFLATE packs bits into bytes. */
module Bits {

  type Byte = b: int | 0 <= b < 256

  function Pow2(n: nat): (r: nat)
    ensures r >= 1
  {
    if n == 0 then 1 else 2 * Pow2(n - 1)
  }

  /** All bits of a byte string: byte by byte, least significant bit first. */
  function Stream(data: seq<Byte>): (s: seq<bool>)
    ensures |s| == 8 * |data|
  {
    if data == [] then [] else LsbFirst(data[0], 8) + Stream(data[1..])
  }

  function BitValue(b: bool): nat {
    if b then 1 else 0
  }

  /** The number spelled by s[p..p + n], least significant bit first. */
  function Value(s: seq<bool>, p: nat, n: nat): nat
    requires p + n <= |s|
    decreases s, n
  {
    if n == 0 then 0 else BitValue(s[p]) + 2 * Value(s, p + 1, n - 1)
  }

  // Numbers in bytes, the lowest first.
  function Le16(n: nat): seq<Byte> {
    [n % 0x100, n / 0x100 % 0x100]
  }

  function Le32(n: nat): seq<Byte> {
    [n % 0x100, n / 0x100 % 0x100, n / 0x1_0000 % 0x100, n / 0x100_0000 % 0x100]
  }

  /** The outcome of a read: a value, or -1 on failure, and the next unread bit. */
  datatype Res = Res(v: int, p: nat)

  /** The next n bits, or -1 with nothing lost. */
  function GetBits(s: seq<bool>, p: nat, n: nat): (r: Res)
    requires p <= |s|
    ensures r.v >= -1 && p <= r.p <= |s|
  {
    if p + n <= |s| then Res(Value(s, p, n), p + n) else Res(-1, p)
  }

  /** n bits of v, least significant first: numbers in DEFLATE. */
  function LsbFirst(v: nat, n: nat): (r: seq<bool>)
    ensures |r| == n
  {
    if n == 0 then [] else [v % 2 == 1] + LsbFirst(v / 2, n - 1)
  }

  /** n bits of v, most significant first: Huffman codewords in DEFLATE. */
  function MsbFirst(v: nat, n: nat): (r: seq<bool>)
    ensures |r| == n
  {
    if n == 0 then [] else MsbFirst(v / 2, n - 1) + [v % 2 == 1]
  }

  /** The bits e occur in s at position p. */
  ghost predicate At(s: seq<bool>, p: nat, e: seq<bool>) {
    p + |e| <= |s| && forall i {:trigger e[i]} :: 0 <= i < |e| ==> s[p + i] == e[i]
  }

  lemma AtSplit(s: seq<bool>, p: nat, a: seq<bool>, b: seq<bool>)
    requires At(s, p, a + b)
    ensures At(s, p, a) && At(s, p + |a|, b)
  {
    forall i | 0 <= i < |a| ensures s[p + i] == a[i] {
      assert (a + b)[i] == a[i];
    }
    forall i | 0 <= i < |b| ensures s[p + |a| + i] == b[i] {
      assert (a + b)[|a| + i] == b[i];
    }
  }

  /** The bits e are exactly s[p..q]. */
  ghost predicate Span(s: seq<bool>, p: nat, q: nat, e: seq<bool>) {
    q == p + |e| && At(s, p, e)
  }

  lemma SpanSplit(s: seq<bool>, p: nat, q: nat, a: seq<bool>, b: seq<bool>) returns (m: nat)
    requires Span(s, p, q, a + b)
    ensures Span(s, p, m, a) && Span(s, m, q, b)
  {
    m := p + |a|;
    AtSplit(s, p, a, b);
  }

  lemma SpanJoin(s: seq<bool>, p: nat, m: nat, q: nat, a: seq<bool>, b: seq<bool>)
    requires Span(s, p, m, a) && Span(s, m, q, b)
    ensures Span(s, p, q, a + b)
  {
    forall i | 0 <= i < |a + b| ensures s[p + i] == (a + b)[i] {
      if i < |a| {
        assert s[p + i] == a[i];
      } else {
        assert s[m + (i - |a|)] == b[i - |a|];
      }
    }
  }

  /** The bits that a number was read from are those it is written with. */
  lemma NumberSpan(s: seq<bool>, p: nat, q: nat, v: nat, n: nat)
    requires p <= |s| && GetBits(s, p, n) == Res(v, q)
    ensures Span(s, p, q, LsbFirst(v, n)) && v < Pow2(n)
  {
    LsbOfValue(s, p, n);
    ValueBound(s, p, n);
    forall i | 0 <= i < n ensures s[p + i] == LsbFirst(v, n)[i] {
      assert s[p..p + n][i] == s[p + i];
    }
  }

  lemma {:induction false} Pow2Add(a: nat, b: nat)
    ensures Pow2(a + b) == Pow2(a) * Pow2(b)
  {
    if a == 0 {
    } else {
      Pow2Add(a - 1, b);
      MulTwo(Pow2(a - 1), Pow2(b));
    }
  }

  lemma {:induction false} Pow2Monotone(a: nat, b: nat)
    requires a <= b
    ensures Pow2(a) <= Pow2(b)
  {
    if a == b {
    } else {
      Pow2Monotone(a, b - 1);
    }
  }

  lemma {:induction false} ValueBound(s: seq<bool>, p: nat, n: nat)
    requires p + n <= |s|
    ensures Value(s, p, n) < Pow2(n)
    decreases s, n
  {
    if n == 0 {
    } else {
      ValueBound(s, p + 1, n - 1);
    }
  }

  lemma MulTwo(x: nat, y: nat)
    ensures 2 * (x * y) == (2 * x) * y
  {
  }

  /** Reading a + b bits is reading a bits and then b more significant ones. */
  lemma {:induction false} ValueSplit(s: seq<bool>, p: nat, a: nat, b: nat)
    requires p + a + b <= |s|
    ensures Value(s, p, a + b) == Value(s, p, a) + Pow2(a) * Value(s, p + a, b)
    decreases a
  {
    if a == 0 {
    } else {
      ValueSplit(s, p + 1, a - 1, b);
      MulTwo(Pow2(a - 1), Value(s, p + a, b));
    }
  }

  /** Reading back a number written least significant bit first. */
  lemma {:induction false} ValueAt(s: seq<bool>, p: nat, v: nat, n: nat)
    requires v < Pow2(n) && At(s, p, LsbFirst(v, n))
    ensures Value(s, p, n) == v
    decreases s, n
  {
    if n == 0 {
    } else {
      var tail := LsbFirst(v / 2, n - 1);
      AtSplit(s, p, [v % 2 == 1], tail);
      assert [v % 2 == 1][0] == s[p + 0];
      ValueAt(s, p + 1, v / 2, n - 1);
    }
  }

  /** Writing a number that was read. */
  lemma {:induction false} LsbOfValue(s: seq<bool>, p: nat, n: nat)
    requires p + n <= |s|
    ensures LsbFirst(Value(s, p, n), n) == s[p..p + n]
    decreases n
  {
    if n == 0 {
    } else {
      LsbOfValue(s, p + 1, n - 1);
    }
  }

  lemma Pow2Eight(n: nat)
    requires n == 8
    ensures Pow2(n) == 256
  {
    Pow2Add(4, 4);
  }

  lemma WholeBytes(data: seq<Byte>)
    ensures |Stream(data)| % 8 == 0
  {
  }

  lemma AtBehind(a: seq<bool>, s: seq<bool>, p: nat, e: seq<bool>, q: nat)
    requires At(s, p, e) && q == |a| + p
    ensures At(a + s, q, e)
  {
    forall i | 0 <= i < |e| ensures (a + s)[q + i] == e[i] {
      assert (a + s)[q + i] == s[p + i];
    }
  }

  lemma {:induction false} StreamAt(data: seq<Byte>, i: nat)
    requires i < |data|
    ensures At(Stream(data), 8 * i, LsbFirst(data[i], 8))
  {
    var first, rest := LsbFirst(data[0], 8), Stream(data[1..]);
    assert Stream(data) == first + rest;
    if i == 0 {
      assert (first + rest)[0..8] == first;
    } else {
      StreamAt(data[1..], i - 1);
      AtBehind(first, rest, 8 * (i - 1), LsbFirst(data[i], 8), 8 * i);
    }
  }

  /** The n = 8 bits at a byte boundary of the stream are that byte. */
  lemma StreamByte(data: seq<Byte>, i: nat, n: nat)
    requires i < |data| && n == 8
    ensures Value(Stream(data), 8 * i, n) == data[i]
  {
    StreamAt(data, i);
    Pow2Eight(n);
    ValueAt(Stream(data), 8 * i, data[i], n);
  }

  /** Cutting a byte string cuts its bits. */
  lemma {:induction false} StreamPrefix(data: seq<Byte>, k: nat)
    requires k <= |data|
    ensures Stream(data[..k]) == Stream(data)[..8 * k]
  {
    if k == 0 {
    } else {
      StreamPrefix(data[1..], k - 1);
      assert data[..k][1..] == data[1..][..k - 1];
      assert Stream(data)[..8 * k] == LsbFirst(data[0], 8) + Stream(data[1..])[..8 * (k - 1)];
    }
  }
}
