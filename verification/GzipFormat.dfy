/** Writing gzip members (section 2.3 of RFC 1952), and the proof that decompression reads
    back the payload of every member. */
module GzipFormat {
  import opened Options
  import opened Arith
  import opened Bits
  import opened Gzip
  import Crc
  import S = InflateSpec
  import E = DeflateEncoder
  import D = DeflateStream
  import InflateBounds

  /** The optional fields and the header bytes a decompressor does not look at. */
  datatype Header = Header(
    ftext: bool, reserved: seq<bool>, rest: seq<Byte>,
    extra: Option<seq<Byte>>, name: Option<seq<Byte>>, comment: Option<seq<Byte>>, hcrc: Option<seq<Byte>>)

  predicate HeaderWf(h: Header) {
    && |h.reserved| == 3 && |h.rest| == 6
    && (h.extra.Some? ==> |h.extra.value| < 0x1_0000)
    && (h.name.Some? ==> 0 !in h.name.value)
    && (h.comment.Some? ==> 0 !in h.comment.value)
    && (h.hcrc.Some? ==> |h.hcrc.value| == 2)
  }

  function FlagBits(h: Header): (r: seq<bool>)
    requires HeaderWf(h)
    ensures |r| == 8
  {
    [h.ftext, h.hcrc.Some?, h.extra.Some?, h.name.Some?, h.comment.Some?] + h.reserved
  }

  function FlagByte(h: Header): Byte
    requires HeaderWf(h)
  {
    S.ByteValue(FlagBits(h), 0, 8);
    Value(FlagBits(h), 0, 8)
  }

  lemma Flags(h: Header)
    requires HeaderWf(h)
    ensures LsbFirst(FlagByte(h), 8) == FlagBits(h)
  {
    LsbOfValue(FlagBits(h), 0, 8);
  }

  function EncodeExtra(extra: Option<seq<Byte>>): seq<Byte>
    requires extra.Some? ==> |extra.value| < 0x1_0000
  {
    if extra.None? then [] else [|extra.value| % 256, |extra.value| / 256] + extra.value
  }

  function EncodeString(s: Option<seq<Byte>>): seq<Byte> {
    if s.None? then [] else s.value + [0]
  }

  function EncodeHcrc(hcrc: Option<seq<Byte>>): seq<Byte> {
    if hcrc.None? then [] else hcrc.value
  }

  function EncodeFields(h: Header): seq<Byte>
    requires HeaderWf(h)
  {
    EncodeExtra(h.extra) + (EncodeString(h.name) + (EncodeString(h.comment) + EncodeHcrc(h.hcrc)))
  }

  function EncodeHeader(h: Header): (r: seq<Byte>)
    requires HeaderWf(h)
    ensures |r| >= 10
  {
    [0x1F, 0x8B, 8, FlagByte(h)] + h.rest + EncodeFields(h)
  }

  /** The bytes x are exactly p[o..end]. */
  ghost predicate Bytes(p: seq<Byte>, o: nat, end: nat, x: seq<Byte>) {
    end == o + |x| && end <= |p| && p[o..end] == x
  }

  lemma BytesSplit(p: seq<Byte>, o: nat, end: nat, a: seq<Byte>, b: seq<Byte>) returns (m: nat)
    requires Bytes(p, o, end, a + b)
    ensures Bytes(p, o, m, a) && Bytes(p, m, end, b)
  {
    m := o + |a|;
    assert p[o..m] == p[o..end][..|a|];
    assert p[m..end] == p[o..end][|a|..];
  }

  lemma {:induction false} SkipsString(p: seq<Byte>, o: nat, end: nat, s: seq<Byte>)
    requires 0 !in s && Bytes(p, o, end, s + [0])
    ensures AfterString(p, o) == end
    decreases |s|
  {
    assert p[o] == p[o..end][0];
    if s == [] {
    } else {
      assert p[o] in s;
      assert p[o + 1..end] == p[o..end][1..] == s[1..] + [0];
      SkipsString(p, o + 1, end, s[1..]);
    }
  }

  lemma SkipsExtra(p: seq<Byte>, o: nat, end: nat, x: seq<Byte>)
    requires |x| < 0x1_0000 && Bytes(p, o, end, [|x| % 256, |x| / 256] + x)
    ensures AfterExtra(p, o) == end
  {
    assert p[o] == p[o..end][0] && p[o + 1] == p[o..end][1];
  }

  /** The flags say which fields are there. */
  lemma FlagsTell(h: Header, flg: Byte)
    requires HeaderWf(h) && flg == FlagByte(h)
    ensures Flag(flg, 1) == h.hcrc.Some? && Flag(flg, 2) == h.extra.Some?
    ensures Flag(flg, 3) == h.name.Some? && Flag(flg, 4) == h.comment.Some?
  {
    Flags(h);
  }

  lemma SkipsExtraField(p: seq<Byte>, o: nat, end: nat, x: Option<seq<Byte>>, flg: Byte)
    requires (x.Some? ==> |x.value| < 0x1_0000) && Flag(flg, 2) == x.Some? && Bytes(p, o, end, EncodeExtra(x))
    ensures AfterField(p, o, flg, 2) == end
  {
    if x.Some? { SkipsExtra(p, o, end, x.value); }
  }

  lemma SkipsStringField(p: seq<Byte>, o: nat, end: nat, x: Option<seq<Byte>>, flg: Byte, field: nat)
    requires 3 <= field <= 4 && (x.Some? ==> 0 !in x.value) && Flag(flg, field) == x.Some?
    requires Bytes(p, o, end, EncodeString(x))
    ensures AfterField(p, o, flg, field) == end
  {
    if x.Some? { SkipsString(p, o, end, x.value); }
  }

  lemma SkipsHcrcField(p: seq<Byte>, o: nat, end: nat, x: Option<seq<Byte>>, flg: Byte)
    requires (x.Some? ==> |x.value| == 2) && Flag(flg, 1) == x.Some? && Bytes(p, o, end, EncodeHcrc(x))
    ensures AfterField(p, o, flg, 1) == end
  {
  }

  /** Each field is skipped exactly when it is there. */
  lemma SkipsFields(p: seq<Byte>, h: Header, o: nat, end: nat, flg: Byte)
    requires HeaderWf(h) && flg == FlagByte(h) && Bytes(p, o, end, EncodeFields(h))
    ensures AfterField(p, AfterField(p, AfterField(p, AfterField(p, o, flg, 2), flg, 3), flg, 4), flg, 1) == end
  {
    var b := BytesSplit(p, o, end, EncodeExtra(h.extra),
                        EncodeString(h.name) + (EncodeString(h.comment) + EncodeHcrc(h.hcrc)));
    var c := BytesSplit(p, b, end, EncodeString(h.name), EncodeString(h.comment) + EncodeHcrc(h.hcrc));
    var d := BytesSplit(p, c, end, EncodeString(h.comment), EncodeHcrc(h.hcrc));
    FlagsTell(h, flg);
    SkipsExtraField(p, o, b, h.extra, flg);
    SkipsStringField(p, b, c, h.name, flg, 3);
    SkipsStringField(p, c, d, h.comment, flg, 4);
    SkipsHcrcField(p, d, end, h.hcrc, flg);
  }

  lemma SkipsHeader(p: seq<Byte>, h: Header, end: nat)
    requires HeaderWf(h) && Bytes(p, 0, end, EncodeHeader(h)) && |p| > end && |p| >= 18
    ensures HeaderEnd(p) == end
  {
    var m := BytesSplit(p, 0, end, [0x1F, 0x8B, 8, FlagByte(h)] + h.rest, EncodeFields(h));
    var f := BytesSplit(p, 0, m, [0x1F, 0x8B, 8, FlagByte(h)], h.rest);
    assert p[0..4] == [0x1F, 0x8B, 8, FlagByte(h)];
    assert p[0] == p[0..4][0] && p[1] == p[0..4][1] && p[2] == p[0..4][2] && p[3] == p[0..4][3];
    SkipsFields(p, h, 10, end, FlagByte(h));
  }

  // ------------------------------------------------------ every accepted header

  lemma BytesJoin(p: seq<Byte>, o: nat, m: nat, end: nat, a: seq<Byte>, b: seq<Byte>)
    requires Bytes(p, o, m, a) && Bytes(p, m, end, b)
    ensures Bytes(p, o, end, a + b)
  {
    assert p[o..end] == p[o..m] + p[m..end];
  }

  lemma {:induction false} StringRead(p: seq<Byte>, o: nat, end: nat)
    requires o <= |p| && AfterString(p, o) == end
    ensures o < end <= |p| && 0 !in p[o..end - 1] && p[end - 1] == 0
    decreases |p| - o
  {
    if p[o] == 0 {
    } else {
      StringRead(p, o + 1, end);
      assert p[o..end - 1] == [p[o]] + p[o + 1..end - 1];
    }
  }

  lemma ReadStringField(p: seq<Byte>, o: nat, end: nat, flg: Byte, field: nat) returns (x: Option<seq<Byte>>)
    requires o <= |p| && 3 <= field <= 4 && AfterField(p, o, flg, field) == end
    ensures (x.Some? <==> Flag(flg, field)) && (x.Some? ==> 0 !in x.value) && Bytes(p, o, end, EncodeString(x))
  {
    if Flag(flg, field) {
      StringRead(p, o, end);
      x := Some(p[o..end - 1]);
      assert p[o..end] == p[o..end - 1] + [0];
    } else {
      x := None;
    }
  }

  lemma ReadExtraField(p: seq<Byte>, o: nat, end: nat, flg: Byte) returns (x: Option<seq<Byte>>)
    requires o <= |p| && AfterField(p, o, flg, 2) == end
    ensures (x.Some? <==> Flag(flg, 2)) && (x.Some? ==> |x.value| < 0x1_0000) && Bytes(p, o, end, EncodeExtra(x))
  {
    if Flag(flg, 2) {
      var n := p[o] as int + 256 * (p[o + 1] as int);
      x := Some(p[o + 2..end]);
      assert n % 256 == p[o] && n / 256 == p[o + 1] && |x.value| == n;
      assert p[o..end] == [p[o], p[o + 1]] + p[o + 2..end];
    } else {
      x := None;
    }
  }

  lemma ReadHcrcField(p: seq<Byte>, o: nat, end: nat, flg: Byte) returns (x: Option<seq<Byte>>)
    requires o <= |p| && AfterField(p, o, flg, 1) == end
    ensures (x.Some? <==> Flag(flg, 1)) && (x.Some? ==> |x.value| == 2) && Bytes(p, o, end, EncodeHcrc(x))
  {
    x := if Flag(flg, 1) then Some(p[o..end]) else None;
  }

  /** The flags as numbers (section 2.3.1): 1 for text, 2 for the header's checksum, 4 for extra data,
      8 for a name, 16 for a comment. */
  lemma FlagValue(h: Header)
    requires HeaderWf(h)
    ensures FlagByte(h) % 32 == (if h.ftext then 1 else 0) + (if h.hcrc.Some? then 2 else 0)
      + (if h.extra.Some? then 4 else 0) + (if h.name.Some? then 8 else 0) + (if h.comment.Some? then 16 else 0)
  {
    FiveBits(FlagBits(h));
  }

  lemma FiveBits(s: seq<bool>)
    requires |s| == 8
    ensures Value(s, 0, 8) % 32 == (if s[0] then 1 else 0) + (if s[1] then 2 else 0)
      + (if s[2] then 4 else 0) + (if s[3] then 8 else 0) + (if s[4] then 16 else 0)
  {
    var a, b, c, d := Value(s, 1, 7), Value(s, 2, 6), Value(s, 3, 5), Value(s, 4, 4);
    assert d == BitValue(s[4]) + 2 * Value(s, 5, 3);
    assert c == BitValue(s[3]) + 2 * d;
    assert b == BitValue(s[2]) + 2 * c;
    assert a == BitValue(s[1]) + 2 * b;
    LowFive(BitValue(s[0]), BitValue(s[1]), BitValue(s[2]), BitValue(s[3]), BitValue(s[4]), Value(s, 5, 3));
  }

  lemma LowFive(a: nat, b: nat, c: nat, d: nat, e: nat, rest: nat)
    requires a < 2 && b < 2 && c < 2 && d < 2 && e < 2
    ensures (a + 2 * (b + 2 * (c + 2 * (d + 2 * (e + 2 * rest))))) % 32 == a + 2 * b + 4 * c + 8 * d + 16 * e
  {
  }

  /** The byte from its bits. */
  lemma FlagByteOf(h: Header, flg: Byte)
    requires HeaderWf(h) && FlagBits(h) == LsbFirst(flg, 8)
    ensures FlagByte(h) == flg
  {
    Pow2Eight(8);
    ValueAt(FlagBits(h), 0, flg, 8);
  }

  /** Where the fields of an accepted header end. */
  lemma FieldEnds(p: seq<Byte>) returns (a: nat, b: nat, c: nat)
    requires HeaderEnd(p) >= 0
    ensures 10 <= a <= b <= c <= HeaderEnd(p) <= |p| && a == AfterField(p, 10, p[3], 2)
    ensures b == AfterField(p, a, p[3], 3) && c == AfterField(p, b, p[3], 4)
    ensures HeaderEnd(p) == AfterField(p, c, p[3], 1)
  {
    a := AfterField(p, 10, p[3], 2);
    b := AfterField(p, a, p[3], 3);
    c := AfterField(p, b, p[3], 4);
  }

  /** The fields that are there are those that the flags tell. */
  lemma HeaderOf(flg: Byte, rest: seq<Byte>, extra: Option<seq<Byte>>, name: Option<seq<Byte>>,
                 comment: Option<seq<Byte>>, hcrc: Option<seq<Byte>>) returns (h: Header)
    requires |rest| == 6 && (extra.Some? <==> Flag(flg, 2)) && (extra.Some? ==> |extra.value| < 0x1_0000)
    requires (name.Some? <==> Flag(flg, 3)) && (name.Some? ==> 0 !in name.value)
    requires (comment.Some? <==> Flag(flg, 4)) && (comment.Some? ==> 0 !in comment.value)
    requires (hcrc.Some? <==> Flag(flg, 1)) && (hcrc.Some? ==> |hcrc.value| == 2)
    ensures HeaderWf(h) && FlagByte(h) == flg && h.rest == rest
    ensures h.extra == extra && h.name == name && h.comment == comment && h.hcrc == hcrc
  {
    var bits := LsbFirst(flg, 8);
    h := Header(bits[0], bits[5..], rest, extra, name, comment, hcrc);
    assert FlagBits(h) == bits;
    FlagByteOf(h, flg);
  }

  /** What is accepted as a header is one: it is what some choice of optional fields writes. */
  lemma AcceptedHeader(p: seq<Byte>, end: nat) returns (h: Header)
    requires HeaderEnd(p) == end
    ensures HeaderWf(h) && Bytes(p, 0, end, EncodeHeader(h))
    ensures |p| >= 18 && p[0] == 31 && p[1] == 139 && p[2] == 8
  {
    var a, b, c := FieldEnds(p);
    var extra := ReadExtraField(p, 10, a, p[3]);
    var name := ReadStringField(p, a, b, p[3], 3);
    var comment := ReadStringField(p, b, c, p[3], 4);
    var hcrc := ReadHcrcField(p, c, end, p[3]);
    h := HeaderOf(p[3], p[4..10], extra, name, comment, hcrc);
    FieldsRead(p, h, a, b, c, end);
    HeadRead(p, h, end);
  }

  lemma HeadRead(p: seq<Byte>, h: Header, end: nat)
    requires HeaderWf(h) && |p| >= 10 && p[0] == 0x1F && p[1] == 0x8B && p[2] == 8 && p[3] == FlagByte(h)
    requires h.rest == p[4..10] && Bytes(p, 10, end, EncodeFields(h))
    ensures Bytes(p, 0, end, EncodeHeader(h))
  {
    var front := [0x1F, 0x8B, 8, FlagByte(h)] + h.rest;
    assert p[0..10] == front;
    BytesJoin(p, 0, 10, end, front, EncodeFields(h));
  }

  lemma FieldsRead(p: seq<Byte>, h: Header, a: nat, b: nat, c: nat, end: nat)
    requires HeaderWf(h) && Bytes(p, 10, a, EncodeExtra(h.extra)) && Bytes(p, a, b, EncodeString(h.name))
    requires Bytes(p, b, c, EncodeString(h.comment)) && Bytes(p, c, end, EncodeHcrc(h.hcrc))
    ensures Bytes(p, 10, end, EncodeFields(h))
  {
    BytesJoin(p, b, c, end, EncodeString(h.comment), EncodeHcrc(h.hcrc));
    BytesJoin(p, a, b, end, EncodeString(h.name), EncodeString(h.comment) + EncodeHcrc(h.hcrc));
    BytesJoin(p, 10, a, end, EncodeExtra(h.extra),
              EncodeString(h.name) + (EncodeString(h.comment) + EncodeHcrc(h.hcrc)));
  }

  ghost predicate IsHeader(x: seq<Byte>) {
    exists h: Header :: HeaderWf(h) && EncodeHeader(h) == x
  }

  /** Exactly the headers of the format are accepted, and skipped to their end. */
  lemma HeaderIff(p: seq<Byte>, end: nat)
    ensures HeaderEnd(p) == end <==> |p| >= 18 && end < |p| && IsHeader(p[..end])
  {
    if HeaderEnd(p) == end {
      var h := AcceptedHeader(p, end);
      assert p[0..end] == p[..end];
    }
    if |p| >= 18 && end < |p| && IsHeader(p[..end]) {
      var h: Header :| HeaderWf(h) && EncodeHeader(h) == p[..end];
      assert p[0..end] == p[..end];
      SkipsHeader(p, h, end);
    }
  }

  // ------------------------------------------------------------ bits to bytes

  /** Bits packed into bytes, least significant first, the last byte filled up with zeros. */
  function Pack(bits: seq<bool>): (r: seq<Byte>)
    ensures bits != [] ==> r != []
    decreases |bits|
  {
    if bits == [] then []
    else if |bits| < 8 then [FirstByte(bits + Crc.Zeros(8 - |bits|))]
    else [FirstByte(bits)] + Pack(bits[8..])
  }

  function FirstByte(bits: seq<bool>): (b: Byte)
    requires |bits| >= 8
    ensures LsbFirst(b, 8) == bits[..8]
  {
    S.ByteValue(bits, 0, 8);
    LsbOfValue(bits, 0, 8);
    Value(bits, 0, 8)
  }

  lemma {:induction false} StreamOfPack(bits: seq<bool>)
    ensures |bits| <= |Stream(Pack(bits))| && Stream(Pack(bits))[..|bits|] == bits
    ensures |Stream(Pack(bits))| % 8 == 0
    decreases |bits|
  {
    if |bits| < 8 {
    } else {
      StreamOfPack(bits[8..]);
      assert bits == bits[..8] + bits[8..];
    }
  }

  // ----------------------------------------------------------------- members

  /** A checksum is a number of 32 bits. */
  lemma Crc32Small(data: seq<Byte>)
    ensures Crc32(data) < TWO_32
  {
    WordBound(Crc.Update(Crc.CRC32_POLY, Crc.Zeros(32), data), 32);
  }

  lemma WordBound(w: seq<bool>, n: nat)
    requires |w| == n == 32
    ensures Value(w, 0, n) < TWO_32
  {
    ValueBound(w, 0, n);
    Squared(4, 8);
    Squared(8, 16);
    Squared(16, n);
  }

  lemma Squared(a: nat, b: nat)
    requires b == a + a
    ensures Pow2(b) == Pow2(a) * Pow2(a)
  {
    Pow2Add(a, a);
  }

  function Trailer(payload: seq<Byte>): (r: seq<Byte>)
    ensures |r| == 8
  {
    Le32(Crc32(payload)) + Le32(|payload| % TWO_32)
  }

  lemma ReadsLe32(p: seq<Byte>, o: nat, v: nat)
    requires v < TWO_32 && Bytes(p, o, o + 4, Le32(v))
    ensures Read32(p, o) == v
  {
    var b := Le32(v);
    assert p[o] == p[o..o + 4][0] && p[o + 1] == p[o..o + 4][1];
    assert p[o + 2] == p[o..o + 4][2] && p[o + 3] == p[o..o + 4][3];
    Digits(v);
  }

  lemma Digits(v: nat)
    requires v < TWO_32
    ensures v == v % 0x100 + 0x100 * (v / 0x100 % 0x100) + 0x1_0000 * (v / 0x1_0000 % 0x100)
              + 0x100_0000 * (v / 0x100_0000)
  {
    assert v / 0x1_0000 == v / 0x100 / 0x100 && v / 0x100_0000 == v / 0x1_0000 / 0x100;
  }

  lemma ReadsTrailer(p: seq<Byte>, payload: seq<Byte>)
    requires |p| >= 8 && Bytes(p, |p| - 8, |p|, Trailer(payload))
    ensures TrailerOk(p, payload)
  {
    Crc32Small(payload);
    var n := |payload| % TWO_32;
    var m := BytesSplit(p, |p| - 8, |p|, Le32(Crc32(payload)), Le32(n));
    ReadsLe32(p, |p| - 8, Crc32(payload));
    ReadsLe32(p, |p| - 4, n);
  }

  /** A member holding the payload that the blocks denote. */
  ghost function Member(h: Header, bs: seq<D.Block>): seq<Byte>
    requires HeaderWf(h) && D.StreamWf(bs, 0, [])
  {
    EncodeHeader(h) + (Pack(D.EncodeStream(bs, 0, [])) + Trailer(D.StreamDenote(bs, 0, [])))
  }

  lemma PrefixSpans(s: seq<bool>, q: nat, bits: seq<bool>)
    requires q == |bits| <= |s| && s[..q] == bits
    ensures Span(s, 0, q, bits)
  {
    forall i | 0 <= i < |bits| ensures s[0 + i] == bits[i] {
      assert s[..q][i] == bits[i];
    }
  }

  lemma InflatesPacked(bs: seq<D.Block>, bits: seq<bool>, s: seq<bool>, payload: seq<Byte>, out: seq<Byte>)
    requires D.StreamWf(bs, 0, []) && bits == D.EncodeStream(bs, 0, []) && payload == D.StreamDenote(bs, 0, [])
    requires |s| % 8 == 0 && |bits| <= |s| && s[..|bits|] == bits
    ensures var r := S.InflateAll(s, 0, out); r.v == 1 && r.out == out + payload
  {
    assert out == out + [];
    D.StreamBehind(bs, 0, out, [], out);
    var q := |bits|;
    PrefixSpans(s, q, bits);
    D.InflateInverts(s, 0, q, bs, out);
  }

  lemma HeadSkipped(p: seq<Byte>, h: Header, head: seq<Byte>, tail: seq<Byte>)
    requires HeaderWf(h) && head == EncodeHeader(h) && p == head + tail && |tail| > 8
    ensures HeaderEnd(p) == |head|
  {
    var off := |head|;
    assert p[0..off] == head;
    SkipsHeader(p, h, off);
  }

  lemma TailRead(p: seq<Byte>, front: seq<Byte>, tail: seq<Byte>, payload: seq<Byte>)
    requires tail == Trailer(payload) && p == front + tail
    ensures TrailerOk(p, payload)
  {
    assert p[|p| - 8..|p|] == tail;
    ReadsTrailer(p, payload);
  }

  /** The trailer is compared with all that the output buffer holds. So a member that is decompressed
      behind other output appends its payload, but succeeds exactly when that output has a length
      divisible by 2^32 and does not change the checksum. */
  lemma MemberBehind(h: Header, bs: seq<D.Block>, out: seq<Byte>)
    requires HeaderWf(h) && D.StreamWf(bs, 0, [])
    ensures var payload := D.StreamDenote(bs, 0, []);
      && Decompress(Member(h, bs), out).1 == out + payload
      && (Decompress(Member(h, bs), out).0 <==>
            |out| % TWO_32 == 0 && Crc32(out + payload) == Crc32(payload))
  {
    var bits, payload := D.EncodeStream(bs, 0, []), D.StreamDenote(bs, 0, []);
    var data := Pack(bits);
    var s := Stream(data);
    StreamOfPack(bits);
    InflatesPacked(bs, bits, s, payload, out);
    D.StreamNonEmpty(bs, 0, []);
    ReadsMember(h, data, payload, out, S.InflateAll(s, 0, out));
  }

  /** gzip round trip: whatever optional fields the header has and whatever blocks were used,
      decompressing a member into an empty buffer succeeds and returns its payload. */
  lemma GzipInverts(h: Header, bs: seq<D.Block>)
    requires HeaderWf(h) && D.StreamWf(bs, 0, [])
    ensures Decompress(Member(h, bs), []) == (true, D.StreamDenote(bs, 0, []))
  {
    var payload := D.StreamDenote(bs, 0, []);
    MemberBehind(h, bs, []);
    assert [] + payload == payload;
  }

  /** The buffer has to be empty: with anything up to 2^32 bytes in it, no member is accepted. */
  lemma AcceptedIffEmpty(h: Header, bs: seq<D.Block>, out: seq<Byte>)
    requires HeaderWf(h) && D.StreamWf(bs, 0, []) && |out| < TWO_32
    ensures Decompress(Member(h, bs), out).0 <==> out == []
  {
    MemberBehind(h, bs, out);
    SmallMod(|out|, TWO_32);
    if out == [] { GzipInverts(h, bs); }
  }

  lemma ReadsMember(h: Header, data: seq<Byte>, payload: seq<Byte>, out: seq<Byte>, r: S.OutRes)
    requires HeaderWf(h) && data != []
    requires r == S.InflateAll(Stream(data), 0, out) && r.v == 1 && r.out == out + payload
    ensures var d := Decompress(EncodeHeader(h) + (data + Trailer(payload)), out);
      && d.1 == out + payload
      && (d.0 <==> |out| % TWO_32 == 0 && Crc32(out + payload) == Crc32(payload))
  {
    var head, tail := EncodeHeader(h), Trailer(payload);
    var p := head + (data + tail);
    HeadSkipped(p, h, head, data + tail);
    ThreeParts(p, head, data, tail);
    TailRead(p, head + data, tail, payload);
    DecompressFrom(p, |head|, data, out, r);
    TrailerBehind(p, payload, out, out + payload);
  }

  lemma ThreeParts(p: seq<Byte>, head: seq<Byte>, data: seq<Byte>, tail: seq<Byte>)
    requires p == head + (data + tail) && |tail| == 8
    ensures p == head + data + tail && p[|head|..|p| - 8] == data
  {
  }

  lemma TrailerBehind(p: seq<Byte>, payload: seq<Byte>, out: seq<Byte>, all: seq<Byte>)
    requires |p| >= 8 && TrailerOk(p, payload) && all == out + payload
    ensures TrailerOk(p, all) <==> |out| % TWO_32 == 0 && Crc32(all) == Crc32(payload)
  {
    LengthsAgree(Read32(p, |p| - 4), |out|, |payload|, |all|);
  }

  lemma LengthsAgree(stored: nat, n: nat, payload: nat, all: nat)
    requires stored == payload % TWO_32 && all == n + payload
    ensures stored == all % TWO_32 <==> n % TWO_32 == 0
  {
    SameRemainder(n, payload, TWO_32);
  }

  // -------------------------------------------------- every payload has a member

  function Literals(payload: seq<Byte>): seq<E.Token> {
    if payload == [] then [] else [E.Literal(payload[0])] + Literals(payload[1..])
  }

  lemma {:induction false} LiteralsDenote(payload: seq<Byte>, out: seq<Byte>)
    ensures E.TokensWf(Literals(payload), out) && E.Denote(Literals(payload), out) == out + payload
    decreases |payload|
  {
    if payload == [] {
      assert out + payload == out;
    } else {
      var ts, next := Literals(payload), out + [payload[0]];
      LiteralsDenote(payload[1..], next);
      assert ts[1..] == Literals(payload[1..]) && E.Apply(ts[0], out) == next;
      assert next + payload[1..] == out + payload;
    }
  }

  /** Every payload is read back, from a member with any header. */
  lemma EveryPayload(h: Header, payload: seq<Byte>)
    requires HeaderWf(h)
    ensures var bs := [D.FixedBlock(Literals(payload))];
      D.StreamWf(bs, 0, []) && Decompress(Member(h, bs), []) == (true, payload)
  {
    LiteralsDenote(payload, []);
    assert [] + payload == payload;
    GzipInverts(h, [D.FixedBlock(Literals(payload))]);
  }

  /** The checksum of a payload, from the definition of section 8 of RFC 1952: the first 32 bits of the
      message are complemented, the message is multiplied by x^32 and divided by the polynomial, and
      the remainder is complemented. */
  lemma Crc32IsRemainder(data: seq<Byte>)
    ensures Crc32(data) < TWO_32
    ensures LsbFirst(Crc32(data), 32) == Crc.Not(Crc.Remainder(
      Crc.XorHead(Stream(data) + Crc.Zeros(32), Crc.Not(Crc.Zeros(32))), Crc.CRC32_POLY))
  {
    Crc32Small(data);
    var w := Crc.Update(Crc.CRC32_POLY, Crc.Zeros(32), data);
    Crc.UpdateIsRemainder(Crc.CRC32_POLY, Crc.Zeros(32), data);
    LsbOfValue(w, 0, 32);
  }

  /** Four bytes as a number and as bits. */
  lemma WordOfBytes(b: seq<Byte>, n: nat)
    requires |b| == 4 && n == 8
    ensures Value(Stream(b), 0, n + (n + (n + n))) == Read32(b, 0)
  {
    var s := Stream(b);
    ValueSplit(s, 0, n, n + (n + n));
    ValueSplit(s, n, n, n + n);
    ValueSplit(s, n + n, n, n);
    Pow2Eight(n);
    StreamByte(b, 0, n);
    StreamByte(b, 1, n);
    StreamByte(b, 2, n);
    StreamByte(b, 3, n);
  }

  lemma SameWord(b: seq<Byte>, w: Crc.Word)
    requires |b| == 4
    ensures Read32(b, 0) == Value(w, 0, 32) <==> Stream(b) == w
  {
    WordOfBytes(b, 8);
    SameBits(Stream(b), w, 32);
  }

  lemma SameBits(x: seq<bool>, w: seq<bool>, n: nat)
    requires |x| == |w| == n
    ensures Value(x, 0, n) == Value(w, 0, n) <==> x == w
  {
    LsbOfValue(x, 0, n);
    LsbOfValue(w, 0, n);
  }

  /** What a trailer has to be (section 2.3.1 of RFC 1952): the checksum of all that the buffer holds,
      by its definition, and then the length modulo 2^32. */
  lemma TrailerIs(p: seq<Byte>, out: seq<Byte>)
    requires |p| >= 8
    ensures TrailerOk(p, out) <==>
      && Stream(p[|p| - 8..|p| - 4]) == Crc.Not(Crc.Remainder(
           Crc.XorHead(Stream(out) + Crc.Zeros(32), Crc.Not(Crc.Zeros(32))), Crc.CRC32_POLY))
      && p[|p| - 4..] == Le32(|out| % TWO_32)
  {
    var b := p[|p| - 8..|p| - 4];
    assert Read32(b, 0) == Read32(p, |p| - 8);
    SameWord(b, Crc.Update(Crc.CRC32_POLY, Crc.Zeros(32), out));
    Crc.UpdateIsRemainder(Crc.CRC32_POLY, Crc.Zeros(32), out);
    LengthIs(p, |p| - 4, |out| % TWO_32);
  }

  lemma LengthIs(p: seq<Byte>, o: nat, n: nat)
    requires o + 4 == |p| && n < TWO_32
    ensures Read32(p, o) == n <==> p[o..] == Le32(n)
  {
    if p[o..] == Le32(n) { ReadsLe32(p, o, n); }
    if Read32(p, o) == n { LowestBytes(p[o], p[o + 1], p[o + 2], p[o + 3], n); }
  }

  lemma LowestBytes(a: Byte, b: Byte, c: Byte, d: Byte, n: nat)
    requires n == a as int + 256 * (b as int) + 0x1_0000 * (c as int) + 0x100_0000 * (d as int)
    ensures Le32(n) == [a, b, c, d]
  {
    assert n / 0x100 == b as int + 256 * (c as int) + 0x1_0000 * (d as int);
    assert n / 0x1_0000 == c as int + 256 * (d as int);
  }

  /** What acceptance means for any input: the trailer's checksum and length are the output's, and
      the output grew by at most 1032 bytes for each byte between header and trailer. */
  lemma AcceptedIsChecked(p: seq<Byte>, out: seq<Byte>, got: seq<Byte>)
    requires Decompress(p, out) == (true, got)
    ensures TrailerOk(p, got)
    ensures var off := HeaderEnd(p);
      10 <= off && off + 8 <= |p| && out <= got && |got| - |out| <= 1032 * (|p| - 8 - off)
  {
    var off := HeaderEnd(p);
    var data := p[off..|p| - 8];
    WholeBytes(data);
    var r := S.InflateAll(Stream(data), 0, out);
    DecompressFrom(p, off, data, out, r);
    InflateBounds.InflateBounded(data, 0, out);
  }
}
