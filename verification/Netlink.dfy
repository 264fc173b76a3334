/** The attribute writers of src/net/netlink.c and the veth request of src/net/rtnl.c. The
    capacity of a buffer is the length of its array. */
module Netlink {
  import opened Bits
  import opened Nlattr

  /** Whether there is room for one plain attribute. */
  predicate Room(cap: nat, off: nat, len: nat) {
    len <= 0xFFFF - 4 && off + Align(4 + len) <= cap
  }

  /** Stores the bytes and leaves the others alone. */
  method Write(buf: array<Byte>, at: nat, b: seq<Byte>)
    requires at + |b| <= buf.Length
    modifies buf
    ensures buf[at..at + |b|] == b && buf[..at] == old(buf[..at]) && buf[at + |b|..] == old(buf[at + |b|..])
  {
    forall i | 0 <= i < |b| {
      buf[at + i] := b[i];
    }
  }

  lemma SliceOfSlice(c: seq<Byte>, lo: nat, hi: nat, x: nat, y: nat)
    requires x <= y && lo + y <= hi <= |c|
    ensures c[lo..hi][x..y] == c[lo + x..lo + y]
  {
    forall k | 0 <= k < y - x ensures c[lo..hi][x..y][k] == c[lo + x..lo + y][k] {
      assert c[lo..hi][x + k] == c[lo + x + k];
    }
  }

  /** Bytes kept up to hi are kept in every part of it. */
  lemma PartKept(c: seq<Byte>, d: seq<Byte>, lo: nat, hi: nat, at: nat, end: nat)
    requires lo <= at <= end <= hi <= |c| == |d| && c[lo..hi] == d[lo..hi]
    ensures c[at..end] == d[at..end]
  {
    SliceOfSlice(c, lo, hi, at - lo, end - lo);
    SliceOfSlice(d, lo, hi, at - lo, end - lo);
  }

  lemma TailKept(c: seq<Byte>, d: seq<Byte>, lo: nat, at: nat)
    requires lo <= at <= |c| == |d| && c[lo..] == d[lo..]
    ensures c[at..] == d[at..]
  {
    PartKept(c, d, lo, |c|, at, |c|);
  }

  lemma LeafBytes(c: seq<Byte>, off: nat, a: Attr)
    requires a.Leaf? && off + Size(a) <= |c|
    requires c[off..off + 2] == Le16(4 + |a.data|) && c[off + 2..off + 4] == Le16(a.kind)
    requires c[off + 4..off + 4 + |a.data|] == a.data
    ensures Encodes(a, c[off..off + Size(a)])
  {
    var end := off + Size(a);
    SliceOfSlice(c, off, end, 0, 2);
    SliceOfSlice(c, off, end, 2, 4);
    SliceOfSlice(c, off, end, 4, 4 + |a.data|);
  }

  method PutAttr(buf: array<Byte>, off: nat, kind: nat, data: seq<Byte>) returns (ok: bool, end: nat)
    requires kind < 0x1_0000
    modifies buf
    ensures ok == Room(buf.Length, off, |data|)
    ensures ok ==> end == off + Size(Leaf(kind, data)) && buf[..off] == old(buf[..off])
    ensures ok ==> Encodes(Leaf(kind, data), buf[off..end]) && buf[end..] == old(buf[end..])
    ensures !ok ==> end == off && buf[..] == old(buf[..])
  {
    if |data| > 0xFFFF - 4 {
      return false, off;
    }
    var alen := Align(4 + |data|);
    if off > buf.Length || alen > buf.Length - off {
      return false, off;
    }
    WriteLeaf(buf, off, Leaf(kind, data));
    return true, off + alen;
  }

  method WriteLeaf(buf: array<Byte>, off: nat, a: Attr)
    requires a.Leaf? && off + Size(a) <= buf.Length
    modifies buf
    ensures buf[..off] == old(buf[..off]) && buf[off + Size(a)..] == old(buf[off + Size(a)..])
    ensures Encodes(a, buf[off..off + Size(a)])
  {
    var n := |a.data|;
    ghost var c0 := buf[..];
    Write(buf, off, Le16(4 + n));
    ghost var c1 := buf[..];
    Write(buf, off + 2, Le16(a.kind));
    ghost var c2 := buf[..];
    Write(buf, off + 4, a.data);
    Kept3(c0, c1, c2, buf[..], off, n);
    LeafBytes(buf[..], off, a);
    TailKept(c0, buf[..], off + 4 + n, off + Size(a));
  }

  /** What three writes one behind the other keep of each other and of the rest. */
  lemma Kept3(c0: seq<Byte>, c1: seq<Byte>, c2: seq<Byte>, c3: seq<Byte>, off: nat, n: nat)
    requires off + 4 + n <= |c0| == |c1| == |c2| == |c3|
    requires c1[..off] == c0[..off] && c1[off + 2..] == c0[off + 2..]
    requires c2[..off + 2] == c1[..off + 2] && c2[off + 4..] == c1[off + 4..]
    requires c3[..off + 4] == c2[..off + 4] && c3[off + 4 + n..] == c2[off + 4 + n..]
    ensures c3[..off] == c0[..off] && c3[off..off + 2] == c1[off..off + 2]
    ensures c3[off + 2..off + 4] == c2[off + 2..off + 4]
    ensures c3[off + 4 + n..] == c0[off + 4 + n..]
  {
    PartKept(c3, c2, 0, off + 4, 0, off);
    PartKept(c2, c1, 0, off + 2, 0, off);
    PartKept(c3, c2, 0, off + 4, off, off + 2);
    PartKept(c2, c1, 0, off + 2, off, off + 2);
    PartKept(c3, c2, 0, off + 4, off + 2, off + 4);
    TailKept(c2, c1, off + 4, off + 4 + n);
    TailKept(c1, c0, off + 2, off + 4 + n);
  }

  /** The part between the first four bytes, which hold the message length, and off is as before. */
  ghost predicate Kept(c: seq<Byte>, d: seq<Byte>, off: nat) {
    |c| == |d| && 4 <= off <= |c| && c[4..off] == d[4..off]
  }

  lemma KeptTwice(c: seq<Byte>, d: seq<Byte>, e: seq<Byte>, off: nat, mid: nat)
    requires Kept(c, d, off) && Kept(d, e, mid) && off <= mid
    ensures Kept(c, e, off)
    ensures forall at :: 4 <= at <= mid ==> d[at..mid] == e[at..mid]
    ensures d[off..mid] == e[off..mid]
  {
    PartKept(d, e, 4, mid, 4, off);
    forall at | 4 <= at <= mid ensures d[at..mid] == e[at..mid] {
      PartKept(d, e, 4, mid, at, mid);
    }
  }

  method PutString(buf: array<Byte>, off: nat, kind: nat, val: seq<Byte>) returns (ok: bool, end: nat)
    requires 4 <= off <= buf.Length && kind < 0x1_0000
    modifies buf
    ensures ok == Room(buf.Length, off, |val| + 1) && Kept(old(buf[..]), buf[..], off)
    ensures ok ==> end == off + Size(Leaf(kind, val + [0])) && Encodes(Leaf(kind, val + [0]), buf[off..end])
    ensures ok ==> buf[..4] == Le32(end)
    ensures !ok ==> end == off
  {
    ghost var c := buf[..];
    ok, end := PutAttr(buf, off, kind, val + [0]);
    ghost var d := buf[..];
    if !ok {
      return;
    }
    PartKept(c, d, 0, off, 4, off);
    Write(buf, 0, Le32(end));
    PartKept(d, buf[..], 4, |d|, 4, end);
    KeptTwice(c, d, buf[..], off, end);
  }

  method PutU32(buf: array<Byte>, off: nat, kind: nat, val: nat) returns (ok: bool, end: nat)
    requires 4 <= off <= buf.Length && kind < 0x1_0000
    modifies buf
    ensures ok == Room(buf.Length, off, 4) && Kept(old(buf[..]), buf[..], off)
    ensures ok ==> end == off + Size(Leaf(kind, Le32(val))) && Encodes(Leaf(kind, Le32(val)), buf[off..end])
    ensures !ok ==> end == off
  {
    ghost var c := buf[..];
    ok, end := PutAttr(buf, off, kind, Le32(val));
    PartKept(c, buf[..], 0, off, 4, off);
  }

  /** Leaves room for the length, which only nest_end knows. */
  method NestStart(buf: array<Byte>, off: nat, kind: nat) returns (ok: bool, end: nat)
    requires 4 <= off <= buf.Length && kind < 0x1_0000
    modifies buf
    ensures ok == (off + 4 <= buf.Length) && Kept(old(buf[..]), buf[..], off)
    ensures ok ==> end == off + 4 && buf[off + 2..end] == Le16(kind)
    ensures !ok ==> end == off
  {
    if off + 4 > buf.Length {
      return false, off;
    }
    ghost var c := buf[..];
    Write(buf, off + 2, Le16(kind));
    PartKept(c, buf[..], 0, off + 2, 4, off);
    return true, off + 4;
  }

  method NestEnd(buf: array<Byte>, start: nat, off: nat)
    requires 4 <= start && start + 4 <= off <= buf.Length
    modifies buf
    ensures Kept(old(buf[..]), buf[..], start) && buf[start..start + 2] == Le16(off - start)
    ensures buf[start + 2..] == old(buf[start + 2..])
  {
    ghost var c := buf[..];
    Write(buf, start, Le16(off - start));
    PartKept(c, buf[..], 0, start, 4, start);
  }

  lemma NestBytes(c: seq<Byte>, start: nat, off: nat, a: Attr)
    requires a.Nest? && start + 4 + |a.head| <= off <= |c| && off == start + Size(a)
    requires c[start..start + 2] == Le16(off - start) && c[start + 2..start + 4] == Le16(a.kind)
    requires c[start + 4..start + 4 + |a.head|] == a.head
    requires EncodesAll(a.children, c[start + 4 + |a.head|..off])
    ensures Encodes(a, c[start..off])
  {
    SliceOfSlice(c, start, off, 0, 2);
    SliceOfSlice(c, start, off, 2, 4);
    SliceOfSlice(c, start, off, 4, 4 + |a.head|);
    SliceOfSlice(c, start, off, 4 + |a.head|, off - start);
  }

  /** The ifinfomsg, all zero, in front of a veth peer's attributes; or any other such header. */
  method PutHead(buf: array<Byte>, off: nat, head: seq<Byte>) returns (ok: bool, end: nat)
    requires 4 <= off <= buf.Length
    modifies buf
    ensures ok == (off + |head| <= buf.Length) && Kept(old(buf[..]), buf[..], off)
    ensures ok ==> end == off + |head| && buf[off..end] == head
    ensures !ok ==> end == off
  {
    if off + |head| > buf.Length {
      return false, off;
    }
    ghost var c := buf[..];
    Write(buf, off, head);
    PartKept(c, buf[..], 0, off, 4, off);
    return true, off + |head|;
  }

  /** Any tree, put down by put_attr, nest_start and nest_end. It succeeds exactly when it fits. */
  method PutTree(buf: array<Byte>, off: nat, a: Attr) returns (ok: bool, end: nat)
    requires 4 <= off <= buf.Length && Legal(a)
    modifies buf
    ensures ok <==> Short(a) && off + Size(a) <= buf.Length
    ensures Kept(old(buf[..]), buf[..], off)
    ensures ok ==> end == off + Size(a) && Encodes(a, buf[off..end])
    decreases a, 0
  {
    ghost var c0 := buf[..];
    if a.Leaf? {
      ok, end := PutAttr(buf, off, a.kind, a.data);
      PartKept(c0, buf[..], 0, off, 4, off);
      return;
    }
    ok, end := NestStart(buf, off, a.kind);
    ghost var c1 := buf[..];
    if !ok {
      return;
    }
    ok, end := PutHead(buf, end, a.head);
    ghost var c2 := buf[..];
    KeptTwice(c0, c1, c2, off, off + 4);
    if !ok {
      return;
    }
    var inner := end;
    ok, end := PutAll(buf, end, a.children);
    ghost var c3 := buf[..];
    KeptTwice(c0, c2, c3, off, inner);
    if !ok {
      return;
    }
    NestEnd(buf, off, end);
    KeptTwice(c0, c3, buf[..], off, off);
    NestDone(c1, c2, c3, buf[..], off, inner, end, a);
  }

  /** The header, the children and the late length come together. */
  lemma NestDone(c1: seq<Byte>, c2: seq<Byte>, c3: seq<Byte>, c4: seq<Byte>, off: nat, inner: nat, end: nat, a: Attr)
    requires a.Nest? && inner == off + 4 + |a.head| && end == inner + SizeAll(a.children) <= |c4|
    requires Kept(c1, c2, off + 4) && Kept(c2, c3, inner) && |c3| == |c4|
    requires c1[off + 2..off + 4] == Le16(a.kind) && c2[off + 4..inner] == a.head
    requires EncodesAll(a.children, c3[inner..end])
    requires c4[off..off + 2] == Le16(end - off) && c4[off + 2..] == c3[off + 2..] && off >= 4
    ensures Encodes(a, c4[off..end])
  {
    PartKept(c1, c2, 4, off + 4, off + 2, off + 4);
    PartKept(c2, c3, 4, inner, off + 2, off + 4);
    PartKept(c3, c4, off + 2, |c3|, off + 2, off + 4);
    PartKept(c2, c3, 4, inner, off + 4, inner);
    PartKept(c3, c4, off + 2, |c3|, off + 4, inner);
    PartKept(c3, c4, off + 2, |c3|, inner, end);
    NestBytes(c4, off, end, a);
  }

  method PutAll(buf: array<Byte>, off: nat, s: seq<Attr>) returns (ok: bool, end: nat)
    requires 4 <= off <= buf.Length && LegalAll(s)
    modifies buf
    ensures ok <==> ShortAll(s) && off + SizeAll(s) <= buf.Length
    ensures Kept(old(buf[..]), buf[..], off)
    ensures ok ==> end == off + SizeAll(s) && EncodesAll(s, buf[off..end])
    decreases s
  {
    if s == [] {
      return true, off;
    }
    ghost var c0 := buf[..];
    var mid;
    ok, mid := PutTree(buf, off, s[0]);
    ghost var c1 := buf[..];
    if !ok {
      return ok, mid;
    }
    ok, end := PutAll(buf, mid, s[1..]);
    KeptTwice(c0, c1, buf[..], off, mid);
    if ok { EncodesFront(s, buf[..], off, mid, end); }
  }

  lemma EncodesFront(s: seq<Attr>, c: seq<Byte>, off: nat, mid: nat, end: nat)
    requires s != [] && mid == off + Size(s[0]) <= end <= |c|
    requires Encodes(s[0], c[off..mid]) && EncodesAll(s[1..], c[mid..end])
    ensures EncodesAll(s, c[off..end])
  {
    SliceOfSlice(c, off, end, 0, mid - off);
    SliceOfSlice(c, off, end, mid - off, end - off);
  }
}
