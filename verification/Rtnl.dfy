/** The request that creates a veth pair, and the search of a link dump (src/net/rtnl.c). */
module Rtnl {
  import opened Bits
  import opened Netlink
  import opened Nlattr

  type Name = seq<Byte>

  const RTM_NEWLINK := 16
  const IFLA_IFNAME := 3
  const IFLA_LINKINFO := 18
  const IFLA_NET_NS_FD := 28
  const IFLA_INFO_KIND := 1
  const IFLA_INFO_DATA := 2
  const VETH_INFO_PEER := 1
  const NLA_F_NESTED := 0x8000
  const VETH: Name := [118, 101, 116, 104]

  function Zeros(n: nat): (b: seq<Byte>)
    ensures |b| == n && forall i :: 0 <= i < n ==> b[i] == 0
  {
    if n == 0 then [] else Zeros(n - 1) + [0]
  }

  function PeerAttrs(peer: Name, nsfd: nat): seq<Attr> {
    [Leaf(IFLA_IFNAME, peer + [0]), Leaf(IFLA_NET_NS_FD, Le32(nsfd))]
  }

  function PeerTree(peer: Name, nsfd: nat): Attr {
    Nest(VETH_INFO_PEER + NLA_F_NESTED, Zeros(16), PeerAttrs(peer, nsfd))
  }

  function DataTree(peer: Name, nsfd: nat): Attr {
    Nest(IFLA_INFO_DATA + NLA_F_NESTED, [], [PeerTree(peer, nsfd)])
  }

  function LinkTree(peer: Name, nsfd: nat): Attr {
    Nest(IFLA_LINKINFO + NLA_F_NESTED, [], [Leaf(IFLA_INFO_KIND, VETH + [0]), DataTree(peer, nsfd)])
  }

  /** What the request asks for: the host's end by name, and a veth whose other end has the peer's
      name in the namespace behind nsfd. */
  function Request(host: Name, peer: Name, nsfd: nat): seq<Attr> {
    [Leaf(IFLA_IFNAME, host + [0]), LinkTree(peer, nsfd)]
  }

  lemma One(a: Attr, b: seq<Byte>)
    ensures SizeAll([a]) == Size(a) && (LegalAll([a]) <==> Legal(a)) && (ShortAll([a]) <==> Short(a))
    ensures Encodes(a, b) ==> EncodesAll([a], b)
  {
    if Encodes(a, b) { assert b[..Size(a)] == b; }
  }

  lemma Two(a1: Attr, a2: Attr)
    ensures SizeAll([a1, a2]) == Size(a1) + Size(a2)
    ensures LegalAll([a1, a2]) <==> Legal(a1) && Legal(a2)
    ensures ShortAll([a1, a2]) <==> Short(a1) && Short(a2)
  {
    assert [a1, a2][1..] == [a2];
    One(a2, []);
  }

  lemma TwoEncoded(a1: Attr, a2: Attr, c: seq<Byte>, off: nat, mid: nat, end: nat)
    requires off <= mid <= end <= |c| && mid == off + Size(a1)
    requires Encodes(a1, c[off..mid]) && Encodes(a2, c[mid..end])
    ensures EncodesAll([a1, a2], c[off..end])
  {
    assert [a1, a2][1..] == [a2];
    One(a2, c[mid..end]);
    EncodesFront([a1, a2], c, off, mid, end);
  }

  /** The peer's name and namespace, one behind the other. */
  method FillPeerAttrs(buf: array<Byte>, off: nat, peer: Name, nsfd: nat) returns (ok: bool, end: nat)
    requires 4 <= off <= buf.Length
    modifies buf
    ensures ok <==> ShortAll(PeerAttrs(peer, nsfd)) && off + SizeAll(PeerAttrs(peer, nsfd)) <= buf.Length
    ensures Kept(old(buf[..]), buf[..], off)
    ensures ok ==> end == off + SizeAll(PeerAttrs(peer, nsfd)) && EncodesAll(PeerAttrs(peer, nsfd), buf[off..end])
  {
    ghost var a1, a2 := Leaf(IFLA_IFNAME, peer + [0]), Leaf(IFLA_NET_NS_FD, Le32(nsfd));
    Two(a1, a2);
    ghost var c0 := buf[..];
    ok, end := PutString(buf, off, IFLA_IFNAME, peer);
    ghost var c1 := buf[..];
    if !ok {
      return;
    }
    ghost var mid := end;
    ok, end := PutU32(buf, end, IFLA_NET_NS_FD, nsfd);
    KeptTwice(c0, c1, buf[..], off, mid);
    if ok { TwoEncoded(a1, a2, buf[..], off, mid, end); }
  }

  method FillVethPeer(buf: array<Byte>, off: nat, peer: Name, nsfd: nat) returns (ok: bool, end: nat)
    requires 4 <= off <= buf.Length
    modifies buf
    ensures ok <==> Short(PeerTree(peer, nsfd)) && off + Size(PeerTree(peer, nsfd)) <= buf.Length
    ensures Kept(old(buf[..]), buf[..], off)
    ensures ok ==> end == off + Size(PeerTree(peer, nsfd)) && Encodes(PeerTree(peer, nsfd), buf[off..end])
  {
    ghost var c0 := buf[..];
    ok, end := NestStart(buf, off, VETH_INFO_PEER + NLA_F_NESTED);
    ghost var c1 := buf[..];
    if !ok {
      return;
    }
    ok, end := PutHead(buf, end, Zeros(16));
    ghost var c2 := buf[..];
    KeptTwice(c0, c1, c2, off, off + 4);
    if !ok {
      return;
    }
    ghost var inner := end;
    ok, end := FillPeerAttrs(buf, end, peer, nsfd);
    ghost var c3 := buf[..];
    KeptTwice(c0, c2, c3, off, inner);
    if !ok {
      return;
    }
    NestEnd(buf, off, end);
    KeptTwice(c0, c3, buf[..], off, off);
    NestDone(c1, c2, c3, buf[..], off, inner, end, PeerTree(peer, nsfd));
  }

  /** The inner of the two levels around the peer's description. */
  method FillInfoData(buf: array<Byte>, off: nat, peer: Name, nsfd: nat) returns (ok: bool, end: nat)
    requires 4 <= off <= buf.Length
    modifies buf
    ensures ok <==> Short(DataTree(peer, nsfd)) && off + Size(DataTree(peer, nsfd)) <= buf.Length
    ensures Kept(old(buf[..]), buf[..], off)
    ensures ok ==> end == off + Size(DataTree(peer, nsfd)) && Encodes(DataTree(peer, nsfd), buf[off..end])
  {
    ghost var a := PeerTree(peer, nsfd);
    One(a, []);
    ghost var c0 := buf[..];
    ok, end := NestStart(buf, off, IFLA_INFO_DATA + NLA_F_NESTED);
    ghost var c1 := buf[..];
    if !ok {
      return;
    }
    ghost var inner := end;
    ok, end := FillVethPeer(buf, end, peer, nsfd);
    ghost var c2 := buf[..];
    KeptTwice(c0, c1, c2, off, inner);
    if !ok {
      return;
    }
    NestEnd(buf, off, end);
    KeptTwice(c0, c2, buf[..], off, off);
    DataDone(c1, c2, buf[..], off, inner, end, DataTree(peer, nsfd), a);
  }

  method FillVethLinkinfo(buf: array<Byte>, off: nat, peer: Name, nsfd: nat) returns (ok: bool, end: nat)
    requires 4 <= off <= buf.Length
    modifies buf
    ensures ok <==> Short(LinkTree(peer, nsfd)) && off + Size(LinkTree(peer, nsfd)) <= buf.Length
    ensures Kept(old(buf[..]), buf[..], off)
    ensures ok ==> end == off + Size(LinkTree(peer, nsfd)) && Encodes(LinkTree(peer, nsfd), buf[off..end])
  {
    ghost var a1, a2 := Leaf(IFLA_INFO_KIND, VETH + [0]), DataTree(peer, nsfd);
    Two(a1, a2);
    ghost var c0 := buf[..];
    ok, end := NestStart(buf, off, IFLA_LINKINFO + NLA_F_NESTED);
    ghost var c1 := buf[..];
    if !ok {
      return;
    }
    ok, end := PutString(buf, end, IFLA_INFO_KIND, VETH);
    ghost var c2 := buf[..];
    KeptTwice(c0, c1, c2, off, off + 4);
    if !ok {
      return;
    }
    ghost var id := end;
    ok, end := FillInfoData(buf, end, peer, nsfd);
    ghost var c3 := buf[..];
    KeptTwice(c0, c2, c3, off, id);
    if !ok {
      return;
    }
    KeptTwice(c1, c2, c3, off + 4, id);
    NestEnd(buf, off, end);
    KeptTwice(c0, c3, buf[..], off, off);
    OuterDone(c1, c3, buf[..], off, off + 4, id, end, a1, a2, LinkTree(peer, nsfd));
  }

  lemma OuterDone(c1: seq<Byte>, c3: seq<Byte>, c4: seq<Byte>, off: nat, at: nat, id: nat, end: nat,
                  a1: Attr, a2: Attr, a: Attr)
    requires a == Nest(a.kind, [], [a1, a2]) && off >= 4 && at == off + 4
    requires id == at + Size(a1) && end == id + Size(a2) <= |c4| && |c4| == |c3| && Kept(c1, c3, at)
    requires c1[off + 2..at] == Le16(a.kind) && Encodes(a1, c3[at..id]) && Encodes(a2, c3[id..end])
    requires c4[off..off + 2] == Le16(end - off) && c4[off + 2..] == c3[off + 2..]
    ensures Encodes(a, c4[off..end])
  {
    TwoEncoded(a1, a2, c3, at, id, end);
    assert c1[at..at] == [];
    Two(a1, a2);
    NestDone(c1, c1, c3, c4, off, at, end, a);
  }

  lemma DataDone(c1: seq<Byte>, c2: seq<Byte>, c3: seq<Byte>, id: nat, inner: nat, end: nat, a2: Attr, a3: Attr)
    requires a2 == Nest(a2.kind, [], [a3]) && id >= 4 && inner == id + 4 && end == inner + Size(a3)
    requires Kept(c1, c2, inner) && |c3| == |c2| && end <= |c3| && c1[id + 2..inner] == Le16(a2.kind)
    requires Encodes(a3, c2[inner..end])
    requires c3[id..id + 2] == Le16(end - id) && c3[id + 2..] == c2[id + 2..]
    ensures Encodes(a2, c3[id..end]) && Size(a2) == end - id
  {
    One(a3, c2[inner..end]);
    assert c1[inner..inner] == [];
    NestDone(c1, c1, c2, c3, id, inner, end, a2);
  }

  // A new link, created exclusively and acknowledged, with sequence number 1; all interface flags
  // may change.
  const KIND_FLAGS_SEQ: seq<Byte> := Le16(RTM_NEWLINK) + [5, 6] + [1, 0, 0, 0]
  const CHANGE: seq<Byte> := [255, 255, 255, 255]

  /** What follows the message length in the two headers of the request. */
  function Headers(): (b: seq<Byte>)
    ensures |b| == 28
  {
    KIND_FLAGS_SEQ + Zeros(16) + CHANGE
  }

  method FillHeaders(buf: array<Byte>)
    requires buf.Length >= 32
    modifies buf
    ensures buf[4..32] == Headers()
  {
    forall i | 0 <= i < buf.Length {
      buf[i] := 0;
    }
    assert buf[12..28] == Zeros(16);
    ghost var c0 := buf[..];
    Write(buf, 4, KIND_FLAGS_SEQ);
    ghost var c1 := buf[..];
    PartKept(c0, c1, 12, |c0|, 12, 28);
    Write(buf, 28, CHANGE);
    PartKept(c1, buf[..], 0, 28, 4, 28);
    HeadersJoin(c1, buf[..]);
  }

  lemma HeadersJoin(c: seq<Byte>, d: seq<Byte>)
    requires |c| == |d| >= 32 && c[4..12] == KIND_FLAGS_SEQ && c[12..28] == Zeros(16)
    requires d[4..28] == c[4..28] && d[28..32] == CHANGE
    ensures d[4..32] == Headers()
  {
    assert d[4..32] == d[4..28] + d[28..32];
    assert c[4..28] == c[4..12] + c[12..28];
  }

  method FillRequest(buf: array<Byte>, off: nat, host: Name, peer: Name, nsfd: nat) returns (ok: bool, end: nat)
    requires 4 <= off <= buf.Length
    modifies buf
    ensures ok <==> ShortAll(Request(host, peer, nsfd)) && off + SizeAll(Request(host, peer, nsfd)) <= buf.Length
    ensures Kept(old(buf[..]), buf[..], off)
    ensures ok ==>
      end == off + SizeAll(Request(host, peer, nsfd)) && EncodesAll(Request(host, peer, nsfd), buf[off..end])
  {
    ghost var a1, a2 := Leaf(IFLA_IFNAME, host + [0]), LinkTree(peer, nsfd);
    Two(a1, a2);
    ghost var c0 := buf[..];
    ok, end := PutString(buf, off, IFLA_IFNAME, host);
    ghost var c1 := buf[..];
    if !ok {
      return;
    }
    ghost var mid := end;
    ok, end := FillVethLinkinfo(buf, end, peer, nsfd);
    KeptTwice(c0, c1, buf[..], off, mid);
    if ok { TwoEncoded(a1, a2, buf[..], off, mid, end); }
  }

  /** Succeeds exactly when the request fits the buffer and no name is too long for an attribute.
      Then the buffer holds the headers, the length, and the request's tree, which the walk reads
      back at every level exactly when no nested attribute outgrows its 16-bit length. */
  method FillCreateVeth(buf: array<Byte>, host: Name, peer: Name, nsfd: nat) returns (ok: bool)
    requires 32 <= buf.Length
    modifies buf
    ensures ok <==> ShortAll(Request(host, peer, nsfd)) && 32 + SizeAll(Request(host, peer, nsfd)) <= buf.Length
    ensures ok ==> var end := 32 + SizeAll(Request(host, peer, nsfd));
      && buf[..4] == Le32(end) && buf[4..32] == Headers() && EncodesAll(Request(host, peer, nsfd), buf[32..end])
      && (ReadsAs(Request(host, peer, nsfd), buf[32..end]) <==> NarrowAll(Request(host, peer, nsfd)))
  {
    FillHeaders(buf);
    ghost var c0 := buf[..];
    var end;
    ok, end := FillRequest(buf, 32, host, peer, nsfd);
    ghost var c1 := buf[..];
    if !ok {
      return;
    }
    PartKept(c0, c1, 4, 32, 4, 32);
    Write(buf, 0, Le32(end));
    PartKept(c1, buf[..], 4, |c1|, 4, 32);
    PartKept(c1, buf[..], 4, |c1|, 32, end);
    RequestParts(host, peer, nsfd);
    ReadBackIffNarrow(Request(host, peer, nsfd), buf[32..end]);
  }

  /** In any buffer of less than 2^16 bytes nothing is too long: there the request is read back
      whenever it fits. */
  lemma RequestFitsSmall(host: Name, peer: Name, nsfd: nat, cap: nat)
    requires cap < 0x1_0000 && 32 + SizeAll(Request(host, peer, nsfd)) <= cap
    ensures ShortAll(Request(host, peer, nsfd)) && NarrowAll(Request(host, peer, nsfd))
  {
    SmallAreShort(Request(host, peer, nsfd));
    SmallAreNarrow(Request(host, peer, nsfd));
  }

  /** Whatever fits into less than 2^16 bytes has short attributes. */
  lemma {:induction false} SmallIsShort(a: Attr)
    requires Size(a) < 0xFFFD
    ensures Short(a)
    decreases a
  {
    if a.Nest? { SmallAreShort(a.children); }
  }

  lemma {:induction false} SmallAreShort(s: seq<Attr>)
    requires SizeAll(s) < 0xFFFD
    ensures ShortAll(s)
    decreases s
  {
    if s == [] {
    } else {
      SmallIsShort(s[0]);
      SmallAreShort(s[1..]);
    }
  }

  lemma RequestParts(host: Name, peer: Name, nsfd: nat)
    ensures var s := Request(host, peer, nsfd);
      LegalAll(s) && SizeAll(s) == Size(s[0]) + Size(s[1]) && (ShortAll(s) <==> Short(s[0]) && Short(s[1]))
  {
    var s := Request(host, peer, nsfd);
    Two(s[0], s[1]);
    Two(Leaf(IFLA_IFNAME, peer + [0]), Leaf(IFLA_NET_NS_FD, Le32(nsfd)));
    One(PeerTree(peer, nsfd), []);
    Two(Leaf(IFLA_INFO_KIND, VETH + [0]), DataTree(peer, nsfd));
  }
}
