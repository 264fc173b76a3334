/** Choosing the id of a veth pair from a dump of the existing links (src/net/veth.c). */
module Veth {
  import opened Bits
  import opened Decimals
  import opened LinkDump
  import opened Nlattr
  import opened Options
  import opened Rtnl

  const CAGE_VETH_MAX_ID := 126
  const LONG_MAX := 0x7FFF_FFFF_FFFF_FFFF

  predicate IsSpace(c: Byte) {
    c == 32 || 9 <= c <= 13
  }

  predicate IsDigit(c: Byte) {
    48 <= c <= 57
  }

  function Spaces(s: Name): (n: nat)
    ensures n <= |s|
  {
    if s == [] || !IsSpace(s[0]) then 0 else 1 + Spaces(s[1..])
  }

  predicate AllDigits(s: Name) {
    forall i :: 0 <= i < |s| ==> IsDigit(s[i])
  }

  function Decimal(s: Name): nat
    requires AllDigits(s)
  {
    Number(Digits(s))
  }

  function Digits(s: Name): (d: seq<Digit>)
    requires AllDigits(s)
    ensures |d| == |s| && forall i :: 0 <= i < |d| ==> s[i] as int == 48 + d[i] as int
  {
    seq(|s|, i requires 0 <= i < |s| && IsDigit(s[i]) => Units(s[i]))
  }

  function Units(c: Byte): (d: Digit)
    requires IsDigit(c)
    ensures c as int == 48 + d as int
  {
    var n: int := c;
    n - 48
  }

  /** What strtol makes of a whole string of 64-bit longs, clamping as it does; None where it would
      stop before the end or finds no digits. */
  function Strtol(s: Name): Option<int> {
    var t := s[Spaces(s)..];
    var d := Unsigned(t);
    if d == [] || !AllDigits(d) then None else Some(Clamped(Decimal(d), Minus(t)))
  }

  predicate Minus(t: Name) {
    t != [] && t[0] == 45
  }

  /** Behind the sign, if there is one. */
  function Unsigned(t: Name): Name {
    if t != [] && (t[0] == 43 || t[0] == 45) then t[1..] else t
  }

  function Clamped(n: int, minus: bool): int {
    if minus then (if n > LONG_MAX + 1 then -LONG_MAX - 1 else -n) else if n > LONG_MAX then LONG_MAX else n
  }

  /** The id in a name with the prefix, cut to an int, or -1. */
  function ParseVethId(name: Name, prefix: Name): int {
    if prefix <= name then IdOf(Strtol(name[|prefix|..])) else -1
  }

  function IdOf(n: Option<int>): int {
    match n case Some(v) => Int32(v) case None => -1
  }

  lemma SmallId(id: nat)
    requires id < 0x8000_0000
    ensures IdOf(Some(id)) == id
  {
  }

  /** Whether one of the names stands for the id. */
  predicate Taken(names: seq<Name>, prefix: Name, id: int) {
    exists i :: 0 <= i < |names| && ParseVethId(names[i], prefix) == id
  }

  lemma TakenCons(n: seq<Name>, rest: seq<Name>, prefix: Name, id: int)
    ensures Taken(n + rest, prefix, id) <==> Taken(n, prefix, id) || Taken(rest, prefix, id)
  {
    var both := n + rest;
    if Taken(n, prefix, id) {
      var i :| 0 <= i < |n| && ParseVethId(n[i], prefix) == id;
      assert both[i] == n[i];
    }
    if Taken(rest, prefix, id) {
      var i :| 0 <= i < |rest| && ParseVethId(rest[i], prefix) == id;
      assert both[|n| + i] == rest[i];
    }
  }

  /** What is marked or still to come is what was marked or named at the start. */
  ghost predicate Accounts(u0: seq<bool>, all: seq<Name>, u: seq<bool>, left: seq<Name>, prefix: Name)
    requires |u| == |u0|
  {
    forall id :: 0 <= id < |u| ==> (u[id] || Taken(left, prefix, id) <==> u0[id] || Taken(all, prefix, id))
  }

  lemma AccountsStep(u0: seq<bool>, all: seq<Name>, u: seq<bool>, n: seq<Name>, rest: seq<Name>, v: seq<bool>,
                     prefix: Name)
    requires |v| == |u| == |u0| && Accounts(u0, all, u, n + rest, prefix)
    requires forall id :: 0 <= id < |v| ==> (v[id] <==> u[id] || Taken(n, prefix, id))
    ensures Accounts(u0, all, v, rest, prefix)
  {
    forall id | 0 <= id < |v| ensures v[id] || Taken(rest, prefix, id) <==> u0[id] || Taken(all, prefix, id) {
      TakenCons(n, rest, prefix, id);
    }
  }

  lemma TakenOne(name: Name, prefix: Name, id: int)
    ensures Taken([name], prefix, id) <==> ParseVethId(name, prefix) == id
  {
    assert [name][0] == name;
  }

  method MarkName(name: Name, prefix: Name, used: array<bool>)
    requires used.Length == CAGE_VETH_MAX_ID + 1
    modifies used
    ensures forall id :: 0 <= id < used.Length ==> (used[id] <==> old(used[id]) || Taken([name], prefix, id))
  {
    var vid := ParseVethId(name, prefix);
    forall id { TakenOne(name, prefix, id); }
    if 0 <= vid <= CAGE_VETH_MAX_ID {
      used[vid] := true;
    }
  }

  /** Marks the ids that one link's names stand for. */
  method UsedVethScanAttrs(b: seq<Byte>, start: nat, alen: int, prefix: Name, used: array<bool>, ghost w: seq<Raw>)
    requires AttrsAt(b, start, alen, w) && used.Length == CAGE_VETH_MAX_ID + 1
    modifies used
    ensures forall id :: 0 <= id < used.Length ==> (used[id] <==> old(used[id]) || Taken(IfNames(w), prefix, id))
  {
    var at: nat, len: int := start, alen;
    ghost var left, u0 := w, used[..];
    while AttrOk(b, at, len)
      invariant AttrsAt(b, at, len, left)
      invariant Accounts(u0, IfNames(w), used[..], IfNames(left), prefix)
      decreases len
    {
      var n := Align(U16(b, at));
      var at2: nat, len2: int := at + n, len - n;
      AttrStep(b, at, len, left, at2, len2);
      ghost var u, rest := used[..], IfNames(left[1..]);
      if U16(b, at + 2) == IFLA_IFNAME {
        var name := CStr(b[at + 4..at + U16(b, at)]);
        MarkName(name, prefix, used);
        AccountsStep(u0, IfNames(w), u, [name], rest, used[..], prefix);
      } else {
        assert [] + rest == rest;
      }
      at, len, left := at2, len2, left[1..];
    }
    AttrEnd(b, at, len, left);
  }

  /** Marks the ids that any link's names stand for. */
  method VethScanUsed(buf: seq<Byte>, prefix: Name, used: array<bool>)
    requires Padded(buf) && used.Length == CAGE_VETH_MAX_ID + 1
    modifies used
    ensures forall id :: 0 <= id < used.Length ==>
      (used[id] <==> old(used[id]) || Taken(LinkNames(Messages(buf)), prefix, id))
  {
    var at: nat := 0;
    ghost var ms, all, u0 := Messages(buf), LinkNames(Messages(buf)), used[..];
    AllMsgs(buf);
    while MsgOkAt(buf, at)
      invariant MsgsAt(buf, at, ms) && PaddedAt(buf, at)
      invariant Accounts(u0, all, used[..], LinkNames(ms), prefix)
      decreases |buf| - at
    {
      var len := U32(buf, at);
      var next: nat, from: nat, alen: int := at + Align(len), at + 32, len as int - 32;
      MsgStep(buf, at, ms, len, next);
      AttrsPart(buf, at, len, ms[0], from, alen);
      ghost var u, names, rest := used[..], NamesOf(ms[0]), LinkNames(ms[1..]);
      if U16(buf, at + 4) == RTM_NEWLINK {
        UsedVethScanAttrs(buf, from, alen, prefix, used, Attrs(ms[0]));
      }
      AccountsStep(u0, all, u, names, rest, used[..], prefix);
      at, ms := next, ms[1..];
    }
    MsgEnd(buf, at, ms);
  }

  /** The least id that no link in the dump stands for, and None exactly when all are taken. */
  method LowestFreeVethId(buf: seq<Byte>, prefix: Name) returns (r: Option<nat>)
    requires Padded(buf)
    ensures match r
      case Some(id) =>
        && id <= 126 && !Taken(LinkNames(Messages(buf)), prefix, id)
        && forall j :: 0 <= j < id ==> Taken(LinkNames(Messages(buf)), prefix, j)
      case None => forall j :: 0 <= j <= 126 ==> Taken(LinkNames(Messages(buf)), prefix, j)
  {
    var used := new bool[CAGE_VETH_MAX_ID + 1](_ => false);
    VethScanUsed(buf, prefix, used);
    for i := 0 to CAGE_VETH_MAX_ID + 1
      invariant forall j :: 0 <= j < i ==> used[j]
    {
      if !used[i] {
        return Some(i);
      }
    }
    return None;
  }

  // --------------------------------------------------------------- fresh names

  /** snprintf's "%d" of a natural number. */
  function Print(n: nat): Name {
    var d := Spelled(n);
    seq(|d|, i requires 0 <= i < |d| => var c: int := d[i]; 48 + c)
  }

  lemma PrintReads(n: nat)
    ensures Print(n) != [] && AllDigits(Print(n)) && Decimal(Print(n)) == n
  {
    var p, d := Print(n), Spelled(n);
    SpelledReads(n);
    assert Digits(p) == d;
  }

  /** The name that is printed for an id stands for that id. */
  lemma PrintedParses(prefix: Name, id: nat)
    requires id < 0x8000_0000
    ensures ParseVethId(prefix + Print(id), prefix) == id
  {
    PrintReads(id);
    DigitsParse(prefix, Print(id), id);
  }

  lemma DigitsParse(prefix: Name, d: Name, id: nat)
    requires d != [] && AllDigits(d) && Decimal(d) == id < 0x8000_0000
    ensures ParseVethId(prefix + d, prefix) == id
  {
    StrtolDigits(d);
    PrefixOff(prefix, d);
    SmallId(id);
  }

  lemma PrefixOff(prefix: Name, d: Name)
    ensures prefix <= prefix + d && (prefix + d)[|prefix|..] == d
  {
  }

  lemma StrtolDigits(d: Name)
    requires d != [] && AllDigits(d) && Decimal(d) <= LONG_MAX
    ensures Strtol(d) == Some(Decimal(d))
  {
    StrtolReads(d, [], [], d);
  }

  lemma {:induction false} SpacesOf(sp: Name, t: Name)
    requires (forall i :: 0 <= i < |sp| ==> IsSpace(sp[i])) && t != [] && !IsSpace(t[0])
    ensures Spaces(sp + t) == |sp|
  {
    if sp == [] {
      assert sp + t == t;
    } else {
      assert (sp + t)[1..] == sp[1..] + t;
      SpacesOf(sp[1..], t);
    }
  }

  /** What a number may look like: spaces, a sign, digits. */
  ghost predicate IsNumber(s: Name, sp: Name, sign: Name, d: Name) {
    && s == sp + sign + d && (forall i :: 0 <= i < |sp| ==> IsSpace(sp[i]))
    && (sign == [] || sign == [43] || sign == [45]) && d != [] && AllDigits(d)
  }

  /** It is read as the digits say, negative behind a minus sign, within 64 bits. */
  lemma StrtolReads(s: Name, sp: Name, sign: Name, d: Name)
    requires IsNumber(s, sp, sign, d)
    ensures Strtol(s) == Some(
      var n: int := Decimal(d);
      if sign == [45] then (if n > 0x8000_0000_0000_0000 then -0x8000_0000_0000_0000 else -n)
      else if n > 0x7FFF_FFFF_FFFF_FFFF then 0x7FFF_FFFF_FFFF_FFFF else n)
  {
    var t := sign + d;
    assert IsDigit(d[0]);
    assert s == sp + t;
    SpacesOf(sp, t);
    assert s[|sp|..] == t;
    SignOff(sign, d);
  }

  lemma SignOff(sign: Name, d: Name)
    requires (sign == [] || sign == [43] || sign == [45]) && d != [] && IsDigit(d[0])
    ensures Unsigned(sign + d) == d && (Minus(sign + d) <==> sign == [45])
  {
    if sign == [] { assert sign + d == d; } else { assert (sign + d)[1..] == d; }
  }

  /** And nothing else is a number. */
  lemma StrtolForm(s: Name) returns (sp: Name, sign: Name, d: Name)
    requires Strtol(s).Some?
    ensures IsNumber(s, sp, sign, d)
  {
    SpacesAre(s);
    var t := s[Spaces(s)..];
    sp, sign, d := s[..Spaces(s)], t[..|t| - |Unsigned(t)|], Unsigned(t);
    Parts(s, Spaces(s), |sign|);
  }

  lemma Parts(s: Name, n: nat, k: nat)
    requires n + k <= |s|
    ensures s == s[..n] + s[n..][..k] + s[n..][k..]
  {
  }

  lemma {:induction false} SpacesAre(s: Name)
    ensures forall i :: 0 <= i < Spaces(s) ==> IsSpace(s[i])
  {
    if s == [] || !IsSpace(s[0]) {
    } else {
      SpacesAre(s[1..]);
    }
  }

  /** A free id has a free name: no link in the dump is called what will be printed from it. */
  lemma FreeNameIsFresh(names: seq<Name>, prefix: Name, id: nat)
    requires id <= CAGE_VETH_MAX_ID && !Taken(names, prefix, id)
    ensures prefix + Print(id) !in names
  {
    PrintedParses(prefix, id);
  }
}
