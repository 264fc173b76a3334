/** What a dump of the kernel's links says, and the loops of src/net/rtnl.c that read it. */
module LinkDump {
  import opened Bits
  import opened Netlink
  import opened Nlattr
  import opened Options
  import opened Rtnl

  function U32(b: seq<Byte>, o: nat): (n: nat)
    requires o + 4 <= |b|
  {
    U16(b, o) + 0x1_0000 * U16(b, o + 2)
  }

  /** A 32-bit pattern as a C int. */
  function Int32(n: int): int {
    if n % 0x1_0000_0000 >= 0x8000_0000 then n % 0x1_0000_0000 - 0x1_0000_0000 else n % 0x1_0000_0000
  }

  /** A C string: what comes before the first NUL. */
  function CStr(p: seq<Byte>): Name {
    if p == [] || p[0] == 0 then [] else [p[0]] + CStr(p[1..])
  }

  /** The names among attributes. */
  function IfNames(w: seq<Raw>): seq<Name> {
    if w == [] then []
    else (if w[0].kind == IFLA_IFNAME then [CStr(w[0].payload)] else []) + IfNames(w[1..])
  }

  /** A message behind its header. */
  datatype Msg = Msg(kind: nat, body: seq<Byte>)

  /** NLMSG_OK. */
  predicate MsgOk(b: seq<Byte>) {
    |b| >= 16 && 16 <= U32(b, 0) <= |b|
  }

  /** What is behind the first message and its padding. */
  function Behind(b: seq<Byte>): seq<Byte>
    requires MsgOk(b)
  {
    if Align(U32(b, 0)) <= |b| then b[Align(U32(b, 0))..] else []
  }

  /** Every message is padded, as the kernel pads them: NLMSG_NEXT never steps over the end. */
  predicate Padded(b: seq<Byte>)
    decreases |b|
  {
    MsgOk(b) ==> Align(U32(b, 0)) <= |b| && Padded(Behind(b))
  }

  function Messages(b: seq<Byte>): seq<Msg>
    decreases |b|
  {
    if MsgOk(b) then [Msg(U16(b, 4), b[16..U32(b, 0)])] + Messages(Behind(b)) else []
  }

  /** The attributes behind the ifinfomsg of a message. */
  function Attrs(m: Msg): seq<Raw> {
    if |m.body| < 16 then [] else Walk(m.body[16..])
  }

  function NamesOf(m: Msg): seq<Name> {
    if m.kind == RTM_NEWLINK then IfNames(Attrs(m)) else []
  }

  /** All the names in a dump. */
  function LinkNames(ms: seq<Msg>): seq<Name> {
    if ms == [] then [] else NamesOf(ms[0]) + LinkNames(ms[1..])
  }

  /** The part of the buffer that a pointer and a length that may be negative stand for. */
  function Part(b: seq<Byte>, at: nat, len: int): seq<Byte>
    requires at + len <= |b|
  {
    if len < 0 then [] else b[at..at + len]
  }

  /** The walk from at on, with len bytes left, is w. */
  ghost predicate AttrsAt(b: seq<Byte>, at: nat, len: int, w: seq<Raw>) {
    at + len <= |b| && w == Walk(Part(b, at, len))
  }

  /** NLA_OK on the buffer. */
  predicate AttrOk(b: seq<Byte>, at: nat, len: int)
    requires at + len <= |b|
  {
    len >= 4 && 4 <= U16(b, at) <= len
  }

  lemma NextPart(b: seq<Byte>, at: nat, len: int, at2: nat, len2: int, p: seq<Byte>)
    requires at + len <= |b| && AttrOk(b, at, len) && p == Part(b, at, len)
    requires at2 == at + Align(U16(b, at)) && len2 == len - Align(U16(b, at))
    ensures Ok(p) && U16(p, 0) == U16(b, at) && U16(p, 2) == U16(b, at + 2) && Next(p) == Part(b, at2, len2)
  {
    assert p[0] == b[at] && p[1] == b[at + 1] && p[2] == b[at + 2] && p[3] == b[at + 3];
    var n := Align(U16(b, at));
    if n <= len { SliceOfSlice(b, at, at + len, n, len); }
  }

  /** NLA_OK says whether the walk goes on, and NLA_NEXT takes one step of it. */
  lemma AttrStep(b: seq<Byte>, at: nat, len: int, w: seq<Raw>, at2: nat, len2: int)
    requires AttrsAt(b, at, len, w) && AttrOk(b, at, len)
    requires at2 == at + Align(U16(b, at)) && len2 == len - Align(U16(b, at))
    ensures w != [] && w[0] == Raw(U16(b, at + 2), b[at + 4..at + U16(b, at)])
    ensures AttrsAt(b, at2, len2, w[1..])
  {
    var n, p := U16(b, at), Part(b, at, len);
    SliceOfSlice(b, at, at + len, 4, n);
    NextPart(b, at, len, at2, len2, p);
    assert w[1..] == Walk(Next(p));
  }

  lemma AttrEnd(b: seq<Byte>, at: nat, len: int, w: seq<Raw>)
    requires AttrsAt(b, at, len, w) && !AttrOk(b, at, len)
    ensures w == []
  {
  }

  /** Whether a link has the name among its attributes. */
  method LinkHasName(b: seq<Byte>, start: nat, alen: int, name: Name, ghost w: seq<Raw>) returns (r: bool)
    requires AttrsAt(b, start, alen, w)
    ensures r == (name in IfNames(w))
  {
    var at: nat, len: int := start, alen;
    ghost var left := w;
    while AttrOk(b, at, len)
      invariant AttrsAt(b, at, len, left)
      invariant name in IfNames(w) <==> name in IfNames(left)
      decreases len
    {
      var n := Align(U16(b, at));
      var at2: nat, len2: int := at + n, len - n;
      AttrStep(b, at, len, left, at2, len2);
      if U16(b, at + 2) == IFLA_IFNAME && CStr(b[at + 4..at + U16(b, at)]) == name {
        return true;
      }
      at, len, left := at2, len2, left[1..];
    }
    AttrEnd(b, at, len, left);
    return false;
  }

  /** The messages from at on are ms. */
  ghost predicate MsgsAt(b: seq<Byte>, at: nat, ms: seq<Msg>) {
    at <= |b| && ms == Messages(b[at..])
  }

  ghost predicate PaddedAt(b: seq<Byte>, at: nat) {
    at <= |b| && Padded(b[at..])
  }

  /** NLMSG_OK on the buffer. */
  predicate MsgOkAt(b: seq<Byte>, at: nat)
    requires at <= |b|
  {
    at + 16 <= |b| && 16 <= U32(b, at) <= |b| - at
  }

  lemma AllMsgs(b: seq<Byte>)
    ensures MsgsAt(b, 0, Messages(b)) && (PaddedAt(b, 0) <==> Padded(b))
  {
    assert b[0..] == b;
  }

  /** NLMSG_OK says whether there is a message, and NLMSG_NEXT goes to the one behind it; an
      unpadded message is the last. */
  lemma MsgStep(b: seq<Byte>, at: nat, ms: seq<Msg>, len: nat, at2: nat)
    requires MsgsAt(b, at, ms) && MsgOkAt(b, at) && len == U32(b, at) && at2 == at + Align(len)
    ensures ms != [] && ms[0] == Msg(U16(b, at + 4), b[at + 16..at + len])
    ensures if at2 <= |b| then MsgsAt(b, at2, ms[1..]) else ms[1..] == []
    ensures PaddedAt(b, at) <==> PaddedAt(b, at2)
  {
    var p := b[at..];
    assert U32(p, 0) == len && U16(p, 4) == U16(b, at + 4);
    SliceOfSlice(b, at, |b|, 16, len);
    if at2 <= |b| { assert Behind(p) == b[at2..]; }
    assert ms[1..] == Messages(Behind(p));
  }

  lemma MsgEnd(b: seq<Byte>, at: nat, ms: seq<Msg>)
    requires MsgsAt(b, at, ms) && !MsgOkAt(b, at)
    ensures ms == [] && PaddedAt(b, at)
  {
  }

  const SIZE_T := 0x1_0000_0000_0000_0000

  /** Why a dump has to be padded: NLMSG_NEXT takes the padded length from what is left, as a size_t.
      Behind an unpadded message that wraps round to more than any buffer holds, and NLMSG_OK finds
      room for another header behind the end. */
  lemma {:induction false} RunsOn(b: seq<Byte>, at: nat) returns (end: nat, left: int)
    requires at <= |b| < SIZE_T - 3 && !PaddedAt(b, at)
    ensures at <= end <= |b| && MsgOkAt(b, end)
    ensures left == |b| - end - Align(U32(b, end)) < 0 && left % SIZE_T > |b|
    decreases |b| - at
  {
    if !MsgOkAt(b, at) {
      MsgEnd(b, at, Messages(b[at..]));
      assert false;
    }
    var at2 := at + Align(U32(b, at));
    MsgStep(b, at, Messages(b[at..]), U32(b, at), at2);
    if at2 <= |b| {
      end, left := RunsOn(b, at2);
    } else {
      end, left := at, |b| - at2;
    }
  }

  /** The pointer behind the ifinfomsg and NLMSG_PAYLOAD, which may be negative, stand for the
      message's attributes; its index is where FindIfname looks for it. */
  lemma AttrsPart(b: seq<Byte>, at: nat, len: nat, m: Msg, from: nat, alen: int)
    requires 16 <= len && at + len <= |b| && m.body == b[at + 16..at + len]
    requires from == at + 32 && alen == len - 32
    ensures AttrsAt(b, from, alen, Attrs(m))
    ensures len >= 32 ==> U32(m.body, 4) == U32(b, at + 20)
  {
    BodyPart(b, at, len, m.body, from, alen);
    if len >= 32 { IndexAt(b, at, len, m.body); }
  }

  lemma BodyPart(b: seq<Byte>, at: nat, len: nat, body: seq<Byte>, from: nat, alen: int)
    requires 16 <= len && at + len <= |b| && body == b[at + 16..at + len] && from == at + 32 && alen == len - 32
    ensures from + alen <= |b| && Part(b, from, alen) == if |body| < 16 then [] else body[16..]
  {
    if len >= 32 { SliceOfSlice(b, at + 16, at + len, 16, len - 16); }
  }

  lemma IndexAt(b: seq<Byte>, at: nat, len: nat, body: seq<Byte>)
    requires 32 <= len && at + len <= |b| && body == b[at + 16..at + len]
    ensures U32(body, 4) == U32(b, at + 20)
  {
    assert body[4] == b[at + 20] && body[5] == b[at + 21] && body[6] == b[at + 22] && body[7] == b[at + 23];
  }

  /** The index of the first link with that name. */
  function FindLink(ms: seq<Msg>, name: Name): Option<int> {
    if ms == [] then None
    else if name in NamesOf(ms[0]) then Some(Int32(U32(ms[0].body, 4)))
    else FindLink(ms[1..], name)
  }

  /** The dump is padded, or the name is found before that matters. */
  method FindIfname(buf: seq<Byte>, name: Name) returns (r: Option<int>)
    requires Padded(buf) || FindLink(Messages(buf), name).Some?
    ensures r == FindLink(Messages(buf), name)
  {
    var at: nat := 0;
    ghost var ms := Messages(buf);
    AllMsgs(buf);
    while MsgOkAt(buf, at)
      invariant MsgsAt(buf, at, ms) && (PaddedAt(buf, at) || FindLink(ms, name).Some?)
      invariant FindLink(Messages(buf), name) == FindLink(ms, name)
      decreases |buf| - at
    {
      var len := U32(buf, at);
      var next: nat, from: nat, alen: int := at + Align(len), at + 32, len as int - 32;
      MsgStep(buf, at, ms, len, next);
      AttrsPart(buf, at, len, ms[0], from, alen);
      if U16(buf, at + 4) == RTM_NEWLINK {
        var has := LinkHasName(buf, from, alen, name, Attrs(ms[0]));
        if has {
          return Some(Int32(U32(buf, at + 20)));
        }
      }
      at, ms := next, ms[1..];
    }
    MsgEnd(buf, at, ms);
    return None;
  }

  /** A link is found exactly when some link of the dump has the name. */
  lemma {:induction false} FoundIffNamed(ms: seq<Msg>, name: Name)
    ensures FindLink(ms, name).Some? <==> name in LinkNames(ms)
  {
    if ms == [] {
    } else {
      FoundIffNamed(ms[1..], name);
    }
  }

  lemma {:induction false} CStrOf(name: Name)
    requires 0 !in name
    ensures CStr(name + [0]) == name
  {
    if name == [] {
      assert name + [0] == [0];
    } else {
      assert (name + [0])[1..] == name[1..] + [0];
      CStrOf(name[1..]);
    }
  }

  /** The request to create a link names one link to whoever walks it: the host's end. The peer's
      name is inside the nested attributes, out of this walk's sight. */
  lemma RequestNames(host: Name, peer: Name, nsfd: nat, b: seq<Byte>)
    requires 0 !in host && ReadsAs(Request(host, peer, nsfd), b)
    ensures IfNames(Walk(b)) == [host]
  {
    var s, w := Request(host, peer, nsfd), Walk(b);
    ReadsAsWalk(s, b);
    assert ReadsAsOne(s[0], w[0]) && ReadsAsOne(s[1], w[1]);
    CStrOf(host);
    assert w == [w[0], w[1]];
    assert w[1..] == [w[1]] && [w[1]][1..] == [];
    assert IfNames([w[1]]) == [] + IfNames([]);
  }

  predicate Names(m: Msg, name: Name) {
    name in NamesOf(m)
  }

  lemma FindStep(ms: seq<Msg>, name: Name)
    requires ms != []
    ensures if Names(ms[0], name) then |ms[0].body| >= 8 && FindLink(ms, name) == Some(Int32(U32(ms[0].body, 4)))
            else FindLink(ms, name) == FindLink(ms[1..], name)
  {
  }

  /** Messages that do not name the link are passed over. */
  lemma {:induction false} PassedOver(ms: seq<Msg>, name: Name, i: nat)
    requires i <= |ms| && forall j :: 0 <= j < i ==> !Names(ms[j], name)
    ensures FindLink(ms, name) == FindLink(ms[i..], name)
  {
    if i == 0 {
    } else {
      PassedOver(ms, name, i - 1);
      FindStep(ms[i - 1..], name);
      assert ms[i - 1..][1..] == ms[i..];
    }
  }

  lemma FirstStays(ms: seq<Msg>, name: Name, i: nat, m: Msg)
    requires i < |ms| && m == ms[i] && Names(m, name) && forall j :: 0 <= j < i ==> !Names(ms[j], name)
    ensures |m.body| >= 8 && FindLink(ms, name) == Some(Int32(U32(m.body, 4)))
  {
    PassedOver(ms, name, i);
    FindStep(ms[i..], name);
  }

  // -------------------------------------------------------- what a request asks for

  /** A nested attribute that is read back, one level down. */
  lemma Inside(a: Attr, r: Raw) returns (w: seq<Raw>)
    requires a.Nest? && ReadsAsOne(a, r)
    ensures |r.payload| >= |a.head| && r.payload[..|a.head|] == a.head && w == Walk(r.payload[|a.head|..])
    ensures |w| == |a.children| && forall i :: 0 <= i < |w| ==> ReadsAsOne(a.children[i], w[i])
  {
    ReadsAsWalk(a.children, r.payload[|a.head|..]);
    w := Walk(r.payload[|a.head|..]);
  }

  /** What is read inside the request, level by level: a link named after the host's end, of kind
      "veth"; in its data a peer; and behind the peer's zeroed header its name and its namespace. */
  lemma RequestPeer(host: Name, peer: Name, nsfd: nat, b: seq<Byte>)
    returns (w: seq<Raw>, info: seq<Raw>, data: seq<Raw>, inner: seq<Raw>)
    requires ReadsAs(Request(host, peer, nsfd), b)
    ensures w == Walk(b) && |w| == 2 && w[0] == Raw(3, host + [0]) && w[1].kind == 0x8012
    ensures info == Walk(w[1].payload) && |info| == 2
    ensures info[0] == Raw(1, [118, 101, 116, 104, 0]) && info[1].kind == 0x8002
    ensures data == Walk(info[1].payload) && |data| == 1 && data[0].kind == 0x8001
    ensures |data[0].payload| >= 16 && forall i :: 0 <= i < 16 ==> data[0].payload[i] == 0
    ensures inner == Walk(data[0].payload[16..]) && inner == [Raw(3, peer + [0]), Raw(28, Le32(nsfd))]
    ensures 0 !in peer ==> IfNames(inner) == [peer]
  {
    var s := Request(host, peer, nsfd);
    ReadsAsWalk(s, b);
    w := Walk(b);
    assert ReadsAsOne(s[0], w[0]) && ReadsAsOne(s[1], w[1]);
    info := Inside(LinkTree(peer, nsfd), w[1]);
    assert w[1].payload[0..] == w[1].payload;
    assert ReadsAsOne(Leaf(IFLA_INFO_KIND, VETH + [0]), info[0]) && ReadsAsOne(DataTree(peer, nsfd), info[1]);
    data := Inside(DataTree(peer, nsfd), info[1]);
    assert info[1].payload[0..] == info[1].payload;
    assert ReadsAsOne(PeerTree(peer, nsfd), data[0]);
    inner := Inside(PeerTree(peer, nsfd), data[0]);
    ZeroHead(data[0].payload, 16);
    PeerNames(peer, nsfd, inner);
  }

  lemma ZeroHead(p: seq<Byte>, n: nat)
    requires n <= |p| && p[..n] == Zeros(n)
    ensures forall i :: 0 <= i < n ==> p[i] == 0
  {
    forall i | 0 <= i < n ensures p[i] == 0 { assert p[..n][i] == p[i]; }
  }

  lemma {:induction false} PeerNames(peer: Name, nsfd: nat, inner: seq<Raw>)
    requires |inner| == 2 && ReadsAsOne(PeerAttrs(peer, nsfd)[0], inner[0])
    requires ReadsAsOne(PeerAttrs(peer, nsfd)[1], inner[1])
    ensures inner == [Raw(3, peer + [0]), Raw(28, Le32(nsfd))]
    ensures 0 !in peer ==> IfNames(inner) == [peer]
  {
    assert inner == [inner[0], inner[1]];
    if 0 !in peer {
      CStrOf(peer);
      assert inner[1..] == [inner[1]] && [inner[1]][1..] == [];
      assert IfNames([inner[1]]) == [] + IfNames([]);
    }
  }

  /** The numbers in the request's headers: RTM_NEWLINK, to be created exclusively and acknowledged,
      sequence number 1, every interface flag to be changed, and zeros. */
  lemma RequestHeaders()
    ensures U16(Headers(), 0) == 16 && U16(Headers(), 2) == 0x605 && U32(Headers(), 4) == 1
    ensures (forall i :: 8 <= i < 24 ==> Headers()[i] == 0) && U32(Headers(), 24) == 0xFFFF_FFFF
  {
    var h := Headers();
    assert h[0] == KIND_FLAGS_SEQ[0] && h[1] == KIND_FLAGS_SEQ[1] && h[2] == 5 && h[3] == 6;
    assert h[4] == 1 && h[5] == 0 && h[6] == 0 && h[7] == 0;
    forall i | 8 <= i < 24 ensures h[i] == 0 { assert h[i] == Zeros(16)[i - 8]; }
    assert h[24] == 255 && h[25] == 255 && h[26] == 255 && h[27] == 255;
  }

  // ------------------------------------------------------------------ whole dumps

  /** One link of a dump as the kernel sends it: the rest of the message header, what comes before
      and behind the index in the ifinfomsg, and the attributes. */
  datatype Link = Link(rest: seq<Byte>, before: seq<Byte>, index: nat, behind: seq<Byte>, attrs: seq<Byte>)

  predicate LinkWf(l: Link) {
    && |l.rest| == 10 && |l.before| == 4 && l.index < 0x8000_0000 && |l.behind| == 8
    && |l.attrs| % 4 == 0 && 32 + |l.attrs| < 0x1_0000_0000
  }

  function LinkBody(l: Link): seq<Byte> {
    l.before + Le32(l.index) + l.behind + l.attrs
  }

  function LinkBytes(l: Link): seq<Byte> {
    Le32(32 + |l.attrs|) + Le16(16) + l.rest + LinkBody(l)
  }

  function Dump(ls: seq<Link>): seq<Byte> {
    if ls == [] then [] else LinkBytes(ls[0]) + Dump(ls[1..])
  }

  predicate DumpWf(ls: seq<Link>) {
    forall l :: l in ls ==> LinkWf(l)
  }

  lemma Le32Reads(n: nat, b: seq<Byte>, o: nat)
    requires n < 0x1_0000_0000 && o + 4 <= |b| && b[o..o + 4] == Le32(n)
    ensures U32(b, o) == n
  {
    var x := Le32(n);
    assert b[o] == b[o..o + 4][0] == x[0] && b[o + 1] == b[o..o + 4][1] == x[1];
    assert b[o + 2] == b[o..o + 4][2] == x[2] && b[o + 3] == b[o..o + 4][3] == x[3];
    WordDigits(n);
  }

  lemma WordDigits(n: nat)
    requires n < 0x1_0000_0000
    ensures n == n % 0x100 + 0x100 * (n / 0x100 % 0x100)
              + 0x1_0000 * (n / 0x1_0000 % 0x100 + 0x100 * (n / 0x100_0000 % 0x100))
  {
    var a := n / 0x100;
    var b := a / 0x100;
    assert n / 0x1_0000 == b && n / 0x100_0000 == b / 0x100;
  }

  /** The body of a link: its index, and its attributes. */
  lemma BodyReads(l: Link, body: seq<Byte>)
    requires LinkWf(l) && body == LinkBody(l)
    ensures |body| == 16 + |l.attrs| && Int32(U32(body, 4)) == l.index && body[16..] == l.attrs
  {
    assert body[4..8] == Le32(l.index);
    Le32Reads(l.index, body, 4);
  }

  lemma HeadReads(l: Link, tail: seq<Byte>, b: seq<Byte>)
    requires LinkWf(l) && b == LinkBytes(l) + tail
    ensures |b| == 32 + |l.attrs| + |tail| && U32(b, 0) == 32 + |l.attrs| && U16(b, 4) == 16
    ensures b[16..32 + |l.attrs|] == LinkBody(l) && b[32 + |l.attrs|..] == tail
  {
    var n := 32 + |l.attrs|;
    assert b[0..4] == Le32(n);
    Le32Reads(n, b, 0);
    assert b[4] == 16 && b[5] == 0;
  }

  /** What a dump of links says: each link's body, in a message of its own. */
  function Sent(ls: seq<Link>): (ms: seq<Msg>)
    ensures |ms| == |ls| && forall i :: 0 <= i < |ls| ==> ms[i] == Msg(16, LinkBody(ls[i]))
  {
    seq(|ls|, i requires 0 <= i < |ls| => Msg(16, LinkBody(ls[i])))
  }

  /** One link at the front of a dump is read as it was sent, and the rest is read behind it. */
  lemma LinkReads(l: Link, tail: seq<Byte>, b: seq<Byte>)
    requires LinkWf(l) && b == LinkBytes(l) + tail
    ensures Messages(b) == [Msg(16, LinkBody(l))] + Messages(tail) && (Padded(b) <==> Padded(tail))
  {
    HeadReads(l, tail, b);
    assert Align(U32(b, 0)) == 32 + |l.attrs|;
    assert Behind(b) == tail;
  }

  /** Every link of a dump is read, in order, and the dump is padded. */
  lemma {:induction false} DumpReads(ls: seq<Link>)
    requires DumpWf(ls)
    ensures Padded(Dump(ls)) && Messages(Dump(ls)) == Sent(ls)
  {
    if ls == [] {
    } else {
      assert ls[0] in ls;
      DumpReads(ls[1..]);
      DumpStep(ls, Dump(ls[1..]), Dump(ls));
    }
  }

  lemma DumpStep(ls: seq<Link>, tail: seq<Byte>, b: seq<Byte>)
    requires ls != [] && LinkWf(ls[0]) && b == LinkBytes(ls[0]) + tail
    requires Padded(tail) && Messages(tail) == Sent(ls[1..])
    ensures Padded(b) && Messages(b) == Sent(ls)
  {
    LinkReads(ls[0], tail, b);
    SentCons(ls);
  }

  lemma SentCons(ls: seq<Link>)
    requires ls != []
    ensures Sent(ls) == [Msg(16, LinkBody(ls[0]))] + Sent(ls[1..])
  {
  }

  lemma SentNames(l: Link)
    requires LinkWf(l)
    ensures NamesOf(Msg(16, LinkBody(l))) == IfNames(Walk(l.attrs))
  {
    BodyReads(l, LinkBody(l));
  }

  /** The index that is found is the one that the first link with the name was sent with. */
  lemma FindsFirst(ls: seq<Link>, name: Name, i: nat)
    requires DumpWf(ls) && i < |ls| && name in IfNames(Walk(ls[i].attrs))
    requires forall j :: 0 <= j < i ==> name !in IfNames(Walk(ls[j].attrs))
    ensures FindLink(Messages(Dump(ls)), name) == Some(ls[i].index)
  {
    var ms := Sent(ls);
    DumpReads(ls);
    forall j | 0 <= j <= i ensures Names(ms[j], name) <==> name in IfNames(Walk(ls[j].attrs)) {
      assert ls[j] in ls;
      SentNames(ls[j]);
    }
    FirstStays(ms, name, i, ms[i]);
    assert ls[i] in ls;
    BodyReads(ls[i], LinkBody(ls[i]));
  }
}
