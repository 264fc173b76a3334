/** Netlink attribute trees: what the writers of src/net/netlink.c put into a buffer, and what the
    NLA_OK / NLA_NEXT walk of src/net/netlink.h reads from it. Numbers are little-endian. */
module Nlattr {
  import opened Bits

  /** A plain attribute, or a nested one with the bytes that come before its children (the
      ifinfomsg of a veth peer, else nothing). */
  datatype Attr = Leaf(kind: nat, data: seq<Byte>) | Nest(kind: nat, head: seq<Byte>, children: seq<Attr>)

  function Align(n: nat): (r: nat)
    ensures n <= r < n + 4 && r % 4 == 0
  {
    (n + 3) / 4 * 4
  }

  function U16(b: seq<Byte>, o: nat): (n: nat)
    requires o + 2 <= |b|
    ensures n < 0x1_0000
  {
    var low: int, high: int := b[o], b[o + 1];
    low + 256 * high
  }

  lemma Le16Read(n: nat, b: seq<Byte>, o: nat)
    requires o + 2 <= |b| && b[o..o + 2] == Le16(n)
    ensures U16(b, o) == n % 0x1_0000
  {
    assert b[o] == b[o..o + 2][0] && b[o + 1] == b[o..o + 2][1];
    assert n % 0x1_0000 == n % 256 + 256 * (n / 256 % 256);
  }

  // --------------------------------------------------------------- encodings

  function Size(a: Attr): (n: nat)
    ensures 4 <= n
    decreases a
  {
    match a
    case Leaf(_, d) => Align(4 + |d|)
    case Nest(_, h, c) => 4 + |h| + SizeAll(c)
  }

  function SizeAll(s: seq<Attr>): nat
    decreases s
  {
    if s == [] then 0 else Size(s[0]) + SizeAll(s[1..])
  }

  /** Attribute numbers are 16 bits wide and headers keep the alignment. */
  predicate Legal(a: Attr)
    decreases a
  {
    a.kind < 0x1_0000 && (a.Nest? ==> |a.head| % 4 == 0 && LegalAll(a.children))
  }

  predicate LegalAll(s: seq<Attr>)
    decreases s
  {
    s == [] || (Legal(s[0]) && LegalAll(s[1..]))
  }

  /** No plain attribute is longer than a 16-bit length can say: what put_attr checks. */
  predicate Short(a: Attr)
    decreases a
  {
    match a case Leaf(_, d) => |d| <= 0xFFFF - 4 case Nest(_, _, c) => ShortAll(c)
  }

  predicate ShortAll(s: seq<Attr>)
    decreases s
  {
    s == [] || (Short(s[0]) && ShortAll(s[1..]))
  }

  /** No nested attribute is longer than a 16-bit length can say: what nest_end does not check. */
  predicate Narrow(a: Attr)
    decreases a
  {
    a.Nest? ==> Size(a) < 0x1_0000 && NarrowAll(a.children)
  }

  predicate NarrowAll(s: seq<Attr>)
    decreases s
  {
    s == [] || (Narrow(s[0]) && NarrowAll(s[1..]))
  }

  /** The bytes are what writing the attribute leaves, whatever the padding holds. */
  predicate Encodes(a: Attr, b: seq<Byte>)
    decreases a
  {
    && |b| == Size(a) && b[2..4] == Le16(a.kind)
    && match a
       case Leaf(_, d) => b[..2] == Le16(4 + |d|) && b[4..4 + |d|] == d
       case Nest(_, h, c) => b[..2] == Le16(Size(a)) && b[4..4 + |h|] == h && EncodesAll(c, b[4 + |h|..])
  }

  predicate EncodesAll(s: seq<Attr>, b: seq<Byte>)
    decreases s
  {
    if s == [] then b == []
    else Size(s[0]) <= |b| && Encodes(s[0], b[..Size(s[0])]) && EncodesAll(s[1..], b[Size(s[0])..])
  }

  lemma {:induction false} Aligned(a: Attr)
    requires Legal(a)
    ensures Size(a) % 4 == 0
    decreases a
  {
    if a.Nest? { AlignedAll(a.children); }
  }

  lemma {:induction false} AlignedAll(s: seq<Attr>)
    requires LegalAll(s)
    ensures SizeAll(s) % 4 == 0
    decreases s
  {
    if s == [] {
    } else {
      Aligned(s[0]);
      AlignedAll(s[1..]);
    }
  }

  lemma {:induction false} EncodesAppend(s: seq<Attr>, b: seq<Byte>, a: Attr, c: seq<Byte>)
    requires EncodesAll(s, b) && Encodes(a, c)
    ensures EncodesAll(s + [a], b + c)
    decreases s
  {
    var t, d := s + [a], b + c;
    if s == [] {
      assert t == [a] && d == c;
      assert c[..Size(a)] == c && c[Size(a)..] == [];
    } else {
      var n := Size(s[0]);
      assert t[0] == s[0] && t[1..] == s[1..] + [a];
      assert d[..n] == b[..n] && d[n..] == b[n..] + c;
      EncodesAppend(s[1..], b[n..], a, c);
    }
  }

  // ------------------------------------------------------------------- walks

  /** What the walk hands out: a type and the bytes behind the header. */
  datatype Raw = Raw(kind: nat, payload: seq<Byte>)

  /** NLA_OK. */
  predicate Ok(b: seq<Byte>) {
    |b| >= 4 && 4 <= U16(b, 0) <= |b|
  }

  /** NLA_NEXT; the length left goes negative behind a last attribute without padding. */
  function Next(b: seq<Byte>): (r: seq<Byte>)
    requires Ok(b)
    ensures |r| < |b|
  {
    var n := Align(U16(b, 0));
    if n <= |b| then b[n..] else []
  }

  lemma NextAligned(b: seq<Byte>, n: nat)
    requires Ok(b) && U16(b, 0) == n && n % 4 == 0
    ensures Next(b) == b[n..]
  {
  }

  function Walk(b: seq<Byte>): seq<Raw>
    decreases |b|
  {
    if Ok(b) then [Raw(U16(b, 2), b[4..U16(b, 0)])] + Walk(Next(b)) else []
  }

  /** Walking the bytes, and again what is inside every nested attribute, meets exactly this tree. */
  predicate ReadsAs(s: seq<Attr>, b: seq<Byte>)
    decreases s
  {
    if s == [] then Walk(b) == []
    else
      && Ok(b)
      && ReadsAsOne(s[0], Raw(U16(b, 2), b[4..U16(b, 0)]))
      && ReadsAs(s[1..], Next(b))
  }

  predicate ReadsAsOne(a: Attr, r: Raw)
    decreases a
  {
    && r.kind == a.kind
    && match a
       case Leaf(_, d) => r.payload == d
       case Nest(_, h, c) => |r.payload| >= |h| && r.payload[..|h|] == h && ReadsAs(c, r.payload[|h|..])
  }

  /** The walk and the tree have the same top level. */
  lemma {:induction false} ReadsAsWalk(s: seq<Attr>, b: seq<Byte>)
    requires ReadsAs(s, b)
    ensures |Walk(b)| == |s| && forall i :: 0 <= i < |s| ==> ReadsAsOne(s[i], Walk(b)[i])
    decreases s
  {
    if s == [] {
    } else {
      ReadsAsWalk(s[1..], Next(b));
    }
  }

  // --------------------------------------------------------------- round trip

  /** The two fields of a header in front of the bytes. */
  lemma HeaderReads(b: seq<Byte>, e: seq<Byte>, len: nat, kind: nat)
    requires 4 <= |e| <= |b| && e == b[..|e|]
    requires e[..2] == Le16(len) && e[2..4] == Le16(kind) && len < 0x1_0000 && kind < 0x1_0000
    ensures U16(b, 0) == len && U16(b, 2) == kind
  {
    assert e[..2] == b[0..2] && e[2..4] == b[2..4];
    Le16Read(len, b, 0);
    Le16Read(kind, b, 2);
  }

  lemma LeafReads(a: Attr, b: seq<Byte>, n: nat)
    requires a.Leaf? && Legal(a) && Short(a) && n == Size(a) <= |b| && Encodes(a, b[..n])
    ensures Ok(b) && ReadsAsOne(a, Raw(U16(b, 2), b[4..U16(b, 0)])) && Next(b) == b[n..]
  {
    var k := 4 + |a.data|;
    HeaderReads(b, b[..n], k, a.kind);
    assert b[..n][4..k] == b[4..k];
  }

  /** One attribute at the front of the bytes is handed out as it was put in. */
  lemma {:induction false} FrontReads(a: Attr, b: seq<Byte>, n: nat)
    requires Legal(a) && Short(a) && Narrow(a) && n == Size(a) <= |b| && Encodes(a, b[..n])
    ensures Ok(b) && ReadsAsOne(a, Raw(U16(b, 2), b[4..U16(b, 0)])) && Next(b) == b[n..]
    decreases a, 0
  {
    match a
    case Leaf(_, _) => LeafReads(a, b, n);
    case Nest(_, h, c) =>
      RoundTrip(c, b[..n][4 + |h|..]);
      NestReads(a, b, b[..n], n);
  }

  lemma NestReads(a: Attr, b: seq<Byte>, e: seq<Byte>, n: nat)
    requires a.Nest? && Legal(a) && n == Size(a) <= |b| && n < 0x1_0000 && e == b[..n] && Encodes(a, e)
    requires ReadsAs(a.children, e[4 + |a.head|..])
    ensures Ok(b) && ReadsAsOne(a, Raw(U16(b, 2), b[4..U16(b, 0)])) && Next(b) == b[n..]
  {
    HeaderReads(b, e, n, a.kind);
    Aligned(a);
    NextAligned(b, n);
    PayloadSplit(b, e, n, |a.head|);
  }

  lemma PayloadSplit(b: seq<Byte>, e: seq<Byte>, n: nat, h: nat)
    requires 4 + h <= n <= |b| && e == b[..n]
    ensures b[4..n][..h] == e[4..4 + h] && b[4..n][h..] == e[4 + h..]
  {
  }

  /** Any tree within the length limits is read back as it was written, at every level. */
  lemma {:induction false} RoundTrip(s: seq<Attr>, b: seq<Byte>)
    requires LegalAll(s) && ShortAll(s) && NarrowAll(s) && EncodesAll(s, b)
    ensures ReadsAs(s, b)
    decreases s
  {
    if s == [] {
    } else {
      FrontReads(s[0], b, Size(s[0]));
      RoundTrip(s[1..], b[Size(s[0])..]);
    }
  }

  /** Reading a tree takes the room that writing it took, up to the padding of its end. */
  lemma {:induction false} ReadingTakes(s: seq<Attr>, b: seq<Byte>)
    requires LegalAll(s) && ReadsAs(s, b)
    ensures |b| + 3 >= SizeAll(s)
    decreases s
  {
    if s == [] {
    } else {
      var a, n := s[0], U16(b, 0);
      if a.Nest? {
        var inner := b[4..n][|a.head|..];
        ReadingTakes(a.children, inner);
        Aligned(a);
        assert n + 3 >= Size(a);
      } else {
        assert b[4..n] == a.data;
      }
      ReadingTakes(s[1..], Next(b));
      RoundUp(n, Size(a));
    }
  }

  lemma RoundUp(n: nat, m: nat)
    requires m % 4 == 0 && n + 3 >= m
    ensures Align(n) >= m
  {
  }

  /** A nested attribute that 16 bits cannot measure is not read back: its length field holds the
      size without the upper part, so the walk hands out too little. */
  lemma WideIsLost(a: Attr, b: seq<Byte>, n: nat)
    requires a.Nest? && Legal(a) && n == Size(a) <= |b| && Encodes(a, b[..n]) && n >= 0x1_0000
    ensures !(Ok(b) && ReadsAsOne(a, Raw(U16(b, 2), b[4..U16(b, 0)])))
  {
    assert b[..n][..2] == b[0..2];
    Le16Read(n, b, 0);
    var k := U16(b, 0);
    if Ok(b) && ReadsAsOne(a, Raw(U16(b, 2), b[4..k])) {
      ReadingTakes(a.children, b[4..k][|a.head|..]);
    }
  }

  lemma {:induction false} FrontNarrow(a: Attr, b: seq<Byte>, n: nat)
    requires Legal(a) && Short(a) && n == Size(a) <= |b| && Encodes(a, b[..n])
    requires Ok(b) && ReadsAsOne(a, Raw(U16(b, 2), b[4..U16(b, 0)]))
    ensures Narrow(a)
    decreases a, 0
  {
    match a
    case Leaf(_, _) =>
    case Nest(_, h, c) =>
      if n >= 0x1_0000 { WideIsLost(a, b, n); }
      HeaderReads(b, b[..n], n, a.kind);
      var p, i := b[4..n], b[..n][4 + |h|..];
      assert p[|h|..] == i;
      ReadsOnlyNarrow(c, i);
  }

  lemma {:induction false} ReadsOnlyNarrow(s: seq<Attr>, b: seq<Byte>)
    requires LegalAll(s) && ShortAll(s) && EncodesAll(s, b) && ReadsAs(s, b)
    ensures NarrowAll(s)
    decreases s
  {
    if s == [] {
    } else {
      FrontNarrow(s[0], b, Size(s[0]));
      FrontReads(s[0], b, Size(s[0]));
      ReadsOnlyNarrow(s[1..], b[Size(s[0])..]);
    }
  }

  /** What was written is read back at every level exactly when every nested attribute is shorter
      than 2^16 bytes: the buffer of 512 bytes that the program uses leaves no other case. */
  lemma ReadBackIffNarrow(s: seq<Attr>, b: seq<Byte>)
    requires LegalAll(s) && ShortAll(s) && EncodesAll(s, b)
    ensures ReadsAs(s, b) <==> NarrowAll(s)
  {
    if NarrowAll(s) { RoundTrip(s, b); }
    if ReadsAs(s, b) { ReadsOnlyNarrow(s, b); }
  }

  lemma {:induction false} SmallIsNarrow(a: Attr)
    requires Size(a) < 0x1_0000
    ensures Narrow(a)
    decreases a
  {
    if a.Nest? { SmallAreNarrow(a.children); }
  }

  lemma {:induction false} SmallAreNarrow(s: seq<Attr>)
    requires SizeAll(s) < 0x1_0000
    ensures NarrowAll(s)
    decreases s
  {
    if s == [] {
    } else {
      SmallIsNarrow(s[0]);
      SmallAreNarrow(s[1..]);
    }
  }
}
