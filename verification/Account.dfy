/** What the lazy getters of src/user/ must agree on: one resolution, as pure functions of what was
    given on the command line and of the two databases of the root file system. */
module Account {
  import opened Options

  /** A group token: a name still to be looked up, or a number. */
  datatype Token = Token(name: Option<string>, gid: nat)

  datatype Passwd = Passwd(name: string, uid: nat, gid: nat, dir: string, shell: string)
  datatype Group = Group(name: string, gid: nat, members: seq<string>)

  /** etc/passwd and etc/group under the root, where they can be opened. */
  datatype Rootfs = Rootfs(passwd: Option<seq<Passwd>>, group: Option<seq<Group>>)

  /** A user_t as user_new or user_root_new leaves it. */
  datatype Given = Given(uid: Option<nat>, name: Option<string>, tokens: seq<Token>, gid: Option<nat>)

  predicate Wf(g: Given) {
    && (g.uid.Some? <==> g.name.None?)
    && (g.gid.Some? ==> g.uid.Some? && g.tokens == [])
  }

  const NOBODY := 65534

  // ---------------------------------------------------------------- accounts

  datatype Entry = Entry(uid: nat, name: Option<string>, gid: nat, home: Option<string>, shell: Option<string>)

  function ByUid(e: seq<Passwd>, uid: nat): Option<Passwd> {
    if e == [] then None else if e[0].uid == uid then Some(e[0]) else ByUid(e[1..], uid)
  }

  function ByName(e: seq<Passwd>, name: string): Option<Passwd> {
    if e == [] then None else if e[0].name == name then Some(e[0]) else ByName(e[1..], name)
  }

  const ROOT := Entry(0, Some("root"), 0, Some("/root"), None)

  function EntryOf(g: Given, r: Rootfs): Entry
    requires Wf(g)
  {
    if g.uid.Some? then
      match if r.passwd.Some? then ByUid(r.passwd.value, g.uid.value) else None
      case Some(p) => Entry(g.uid.value, Some(p.name), p.gid, Some(p.dir), Some(p.shell))
      case None => if g.uid.value == 0 then ROOT else Entry(g.uid.value, None, g.uid.value, None, None)
    else
      match if r.passwd.Some? then NamedOrNobody(r.passwd.value, g.name.value) else None
      case Some(p) => Entry(p.uid, g.name, p.gid, Some(p.dir), Some(p.shell))
      case None => Entry(NOBODY, g.name, NOBODY, None, None)
  }

  function NamedOrNobody(e: seq<Passwd>, name: string): Option<Passwd> {
    if ByName(e, name).Some? then ByName(e, name) else ByName(e, "nobody")
  }

  /** The record that was asked for: by number or by name, whichever was given. */
  predicate Asked(g: Given, p: Passwd) {
    if g.uid.Some? then p.uid == g.uid.value else g.name == Some(p.name)
  }

  lemma {:induction false} ByUidFirst(e: seq<Passwd>, uid: nat, i: nat)
    requires i <= |e| && forall j :: 0 <= j < i ==> e[j].uid != uid
    ensures ByUid(e, uid) == ByUid(e[i..], uid)
  {
    if i == 0 {
    } else {
      ByUidFirst(e[1..], uid, i - 1);
      assert e[1..][i - 1..] == e[i..];
    }
  }

  lemma {:induction false} ByNameFirst(e: seq<Passwd>, name: string, i: nat)
    requires i <= |e| && forall j :: 0 <= j < i ==> e[j].name != name
    ensures ByName(e, name) == ByName(e[i..], name)
  {
    if i == 0 {
    } else {
      ByNameFirst(e[1..], name, i - 1);
      assert e[1..][i - 1..] == e[i..];
    }
  }

  /** Every field of a known account comes from one record, the first that was asked for. */
  lemma OneRecord(g: Given, r: Rootfs, i: nat)
    requires Wf(g) && r.passwd.Some? && i < |r.passwd.value| && Asked(g, r.passwd.value[i])
    requires forall j :: 0 <= j < i ==> !Asked(g, r.passwd.value[j])
    ensures var p := r.passwd.value[i];
      EntryOf(g, r) == Entry(p.uid, Some(p.name), p.gid, Some(p.dir), Some(p.shell))
  {
    if g.uid.Some? {
      ByUidFirst(r.passwd.value, g.uid.value, i);
    } else {
      ByNameFirst(r.passwd.value, g.name.value, i);
    }
  }

  /** No record is the one that was asked for, or there is no database. */
  predicate Unknown(g: Given, r: Rootfs) {
    r.passwd.Some? ==> forall j :: 0 <= j < |r.passwd.value| ==> !Asked(g, r.passwd.value[j])
  }

  /** An unknown number is its own group, without a name, home or shell of its own, but for root's.
      An unknown name runs with the ids 65534 when there is no record for "nobody" either. */
  lemma UnknownAccount(g: Given, r: Rootfs)
    requires Wf(g) && Unknown(g, r)
    ensures g.uid.Some? && g.uid.value != 0 ==> EntryOf(g, r) == Entry(g.uid.value, None, g.uid.value, None, None)
    ensures g.uid == Some(0) ==> EntryOf(g, r) == Entry(0, Some("root"), 0, Some("/root"), None)
    ensures g.name.Some? && Unknown(Given(None, Some("nobody"), [], None), r) ==>
      EntryOf(g, r) == Entry(65534, g.name, 65534, None, None)
  {
    if r.passwd.Some? {
      var e, nobody := r.passwd.value, Given(None, Some("nobody"), [], None);
      if g.uid.Some? {
        ByUidFirst(e, g.uid.value, |e|);
      } else {
        ByNameFirst(e, g.name.value, |e|);
        if Unknown(nobody, r) {
          forall j | 0 <= j < |e| ensures e[j].name != "nobody" { assert !Asked(nobody, e[j]); }
          ByNameFirst(e, "nobody", |e|);
        }
      }
    }
  }

  /** Otherwise an unknown name keeps its name and has all else from nobody's first record. */
  lemma NobodysRecord(g: Given, r: Rootfs, i: nat)
    requires Wf(g) && g.name.Some? && Unknown(g, r) && r.passwd.Some?
    requires i < |r.passwd.value| && r.passwd.value[i].name == "nobody"
    requires forall j :: 0 <= j < i ==> r.passwd.value[j].name != "nobody"
    ensures var p := r.passwd.value[i];
      EntryOf(g, r) == Entry(p.uid, g.name, p.gid, Some(p.dir), Some(p.shell))
  {
    ByNameFirst(r.passwd.value, g.name.value, |r.passwd.value|);
    ByNameFirst(r.passwd.value, "nobody", i);
  }

  // ------------------------------------------------------------------ tokens

  /** The first token still to be resolved that has this name, or |t|. */
  function FirstNamed(t: seq<Token>, name: string): (i: nat)
    ensures i <= |t|
    ensures i < |t| ==> t[i].name == Some(name)
    ensures forall j :: 0 <= j < i ==> t[j].name != Some(name)
  {
    if t == [] || t[0].name == Some(name) then 0 else 1 + FirstNamed(t[1..], name)
  }

  function Resolve(t: seq<Token>, e: Group): (r: seq<Token>)
    ensures |r| == |t|
  {
    var i := FirstNamed(t, e.name);
    if i < |t| then t[i := Token(None, e.gid)] else t
  }

  function ResolveAll(t: seq<Token>, db: seq<Group>): (r: seq<Token>)
    ensures |r| == |t|
    decreases db
  {
    if db == [] then t else ResolveAll(Resolve(t, db[0]), db[1..])
  }

  predicate AnyNamed(t: seq<Token>) {
    exists i :: 0 <= i < |t| && t[i].name.Some?
  }

  /** The groups that list the name among their members, in database order. */
  function Memberships(name: string, db: seq<Group>): seq<Token> {
    if db == [] then []
    else (if name in db[0].members then [Token(None, db[0].gid)] else []) + Memberships(name, db[1..])
  }

  /** Whether the groups come from the database's member lists rather than from tokens. */
  predicate Enumerates(g: Given) {
    g.tokens == [] && g.gid.None? && g.name.Some?
  }

  function Tokens(g: Given, r: Rootfs): seq<Token> {
    if r.group.None? then g.tokens
    else if Enumerates(g) then Memberships(g.name.value, r.group.value)
    else if AnyNamed(g.tokens) then ResolveAll(g.tokens, r.group.value)
    else g.tokens
  }

  function FirstNumber(t: seq<Token>): Option<nat> {
    if t == [] then None else if t[0].name.None? then Some(t[0].gid) else FirstNumber(t[1..])
  }

  /** The group id that resolving the tokens by name settles on, if it gets that far. */
  function ByTokens(g: Given, r: Rootfs): Option<nat> {
    if AnyNamed(g.tokens) && r.group.Some? then FirstNumber(Tokens(g, r)) else None
  }

  // ---------------------------------------------------------------- answers

  /** The group of the account, which is the primary one when no token settles it. */
  function Fallback(g: Given, r: Rootfs): nat
    requires Wf(g)
  {
    if EntryOf(g, r).uid != 0 then EntryOf(g, r).gid else 0
  }

  function Gid(g: Given, r: Rootfs): nat
    requires Wf(g)
  {
    if g.gid.Some? then g.gid.value
    else if g.tokens != [] && g.tokens[0].name.None? then g.tokens[0].gid
    else if Enumerates(g) then EntryOf(g, r).gid
    else if ByTokens(g, r).Some? then ByTokens(g, r).value
    else Fallback(g, r)
  }

  function Insert(s: seq<nat>, x: nat): seq<nat> {
    if s == [] || x <= s[0] then [x] + s else [s[0]] + Insert(s[1..], x)
  }

  function AddNumbers(s: seq<nat>, t: seq<Token>): seq<nat> {
    if t == [] then s
    else
      var x := AddNumbers(s, t[..|t| - 1]);
      var last := t[|t| - 1];
      if last.name.Some? || last.gid in x then x else Insert(x, last.gid)
  }

  function Groups(g: Given, r: Rootfs): seq<nat>
    requires Wf(g)
  {
    AddNumbers([Gid(g, r)], Tokens(g, r))
  }

  function Home(g: Given, r: Rootfs): string
    requires Wf(g)
  {
    if EntryOf(g, r).home.Some? then EntryOf(g, r).home.value else "/home/.user"
  }

  function Shell(g: Given, r: Rootfs): string
    requires Wf(g)
  {
    if EntryOf(g, r).shell.Some? then EntryOf(g, r).shell.value else "/bin/sh"
  }

  // --------------------------------------------------- which entry a token gets

  /** Tokens before i that carry the same name as token i. */
  function Earlier(t: seq<Token>, name: string, i: nat): nat
    requires i <= |t|
  {
    if i == 0 then 0 else Earlier(t, name, i - 1) + if t[i - 1].name == Some(name) then 1 else 0
  }

  /** The k-th entry of the database with that name, counting from 0. */
  function Nth(db: seq<Group>, name: string, k: nat): Option<Group> {
    if db == [] then None
    else if db[0].name != name then Nth(db[1..], name, k)
    else if k == 0 then Some(db[0])
    else Nth(db[1..], name, k - 1)
  }

  lemma {:induction false} EarlierUntouched(t: seq<Token>, e: Group, name: string, i: nat)
    requires i <= |t|
    ensures Earlier(Resolve(t, e), name, i)
         == Earlier(t, name, i) - if name == e.name && FirstNamed(t, e.name) < i then 1 else 0
  {
    if i == 0 {
    } else {
      EarlierUntouched(t, e, name, i - 1);
    }
  }

  lemma {:induction false} NoneEarlier(t: seq<Token>, name: string, i: nat)
    requires i <= |t| && forall j :: 0 <= j < i ==> t[j].name != Some(name)
    ensures Earlier(t, name, i) == 0
  {
    if i == 0 {
    } else {
      NoneEarlier(t, name, i - 1);
    }
  }

  lemma {:induction false} SomeEarlier(t: seq<Token>, name: string, i: nat, j: nat)
    requires j < i <= |t| && t[j].name == Some(name)
    ensures Earlier(t, name, i) > 0
  {
    if j == i - 1 {
    } else {
      SomeEarlier(t, name, i - 1, j);
    }
  }

  /** Numbers stay as they are; the k-th token of a name gets the k-th database entry of that name,
      and stays unresolved exactly when there are not that many. */
  lemma {:induction false} EachTokenItsEntry(t: seq<Token>, db: seq<Group>, i: nat)
    requires i < |t|
    ensures ResolveAll(t, db)[i]
         == if t[i].name.None? then t[i]
            else match Nth(db, t[i].name.value, Earlier(t, t[i].name.value, i))
                 case Some(e) => Token(None, e.gid)
                 case None => t[i]
    decreases db
  {
    if db == [] {
    } else {
      var u, f := Resolve(t, db[0]), FirstNamed(t, db[0].name);
      EachTokenItsEntry(u, db[1..], i);
      if t[i].name == Some(db[0].name) {
        EarlierUntouched(t, db[0], db[0].name, i);
        if f == i { NoneEarlier(t, db[0].name, i); } else { SomeEarlier(t, db[0].name, i, f); }
      } else if t[i].name.Some? {
        EarlierUntouched(t, db[0], t[i].name.value, i);
      }
    }
  }

  /** With each name given once, a token gets the first database entry of its name. */
  lemma OnceNamedGetsFirst(t: seq<Token>, db: seq<Group>, i: nat)
    requires i < |t| && t[i].name.Some? && forall j :: 0 <= j < |t| && t[j].name == t[i].name ==> j == i
    ensures ResolveAll(t, db)[i]
         == match Nth(db, t[i].name.value, 0) case Some(e) => Token(None, e.gid) case None => t[i]
  {
    EachTokenItsEntry(t, db, i);
    NoneEarlier(t, t[i].name.value, i);
  }

  // ------------------------------------------------------------- group lists

  predicate Increasing(s: seq<nat>) {
    forall i, j :: 0 <= i < j < |s| ==> s[i] < s[j]
  }

  function Numbers(t: seq<Token>): set<nat> {
    set i | 0 <= i < |t| && t[i].name.None? :: t[i].gid
  }

  lemma {:induction false} InsertKeeps(s: seq<nat>, x: nat)
    requires Increasing(s) && x !in s
    ensures Increasing(Insert(s, x)) && forall y :: y in Insert(s, x) <==> y == x || y in s
  {
    if s != [] && s[0] < x {
      InsertKeeps(s[1..], x);
      var r := Insert(s[1..], x);
      forall i | 0 <= i < |r| ensures s[0] < r[i] {
        assert r[i] in r;
      }
      assert forall y :: y in s <==> y == s[0] || y in s[1..];
    }
  }

  lemma {:induction false} AddNumbersKeeps(s: seq<nat>, t: seq<Token>)
    requires Increasing(s)
    ensures Increasing(AddNumbers(s, t))
    ensures forall y :: y in AddNumbers(s, t) <==> y in s || y in Numbers(t)
  {
    if t == [] {
    } else {
      var front, last := t[..|t| - 1], t[|t| - 1];
      AddNumbersKeeps(s, front);
      var x := AddNumbers(s, front);
      if last.name.None? {
        assert Numbers(t) == Numbers(front) + {last.gid};
        if last.gid !in x { InsertKeeps(x, last.gid); }
      } else {
        assert Numbers(t) == Numbers(front);
      }
    }
  }

  /** The supplementary groups: strictly increasing, and exactly the primary group together with
      every token that has a number. */
  lemma GroupsExactly(g: Given, r: Rootfs)
    requires Wf(g)
    ensures Increasing(Groups(g, r))
    ensures forall y :: y in Groups(g, r) <==> y == Gid(g, r) || y in Numbers(Tokens(g, r))
  {
    AddNumbersKeeps([Gid(g, r)], Tokens(g, r));
  }

  /** Adding numbers that are all there already changes nothing: a second get_groups is the first. */
  lemma {:induction false} NothingToAdd(s: seq<nat>, t: seq<Token>)
    requires forall y :: y in Numbers(t) ==> y in s
    ensures AddNumbers(s, t) == s
  {
    if t == [] {
    } else {
      var front, last := t[..|t| - 1], t[|t| - 1];
      assert Numbers(front) <= Numbers(t);
      assert last.name.None? ==> last.gid in Numbers(t);
      NothingToAdd(s, front);
    }
  }

  /** The whole answer for groups given by tokens: a group is in the list exactly when it is the
      primary one, was given as a number, or is the entry that some named token gets. */
  lemma GroupsOfTokens(g: Given, r: Rootfs, y: nat)
    requires Wf(g) && !Enumerates(g) && r.group.Some?
    ensures y in Groups(g, r) <==>
      || y == Gid(g, r)
      || exists i | 0 <= i < |g.tokens| ::
           match g.tokens[i].name
           case None => g.tokens[i].gid == y
           case Some(n) => var e := Nth(r.group.value, n, Earlier(g.tokens, n, i)); e.Some? && e.value.gid == y
  {
    GroupsExactly(g, r);
    var t, db := g.tokens, r.group.value;
    forall i | 0 <= i < |t| ensures Tokens(g, r)[i] == ResolveAll(t, db)[i] {
      EachTokenItsEntry(t, db, i);
    }
    forall i | 0 <= i < |t|
      ensures Tokens(g, r)[i].name.None? && Tokens(g, r)[i].gid == y <==>
        match t[i].name
        case None => t[i].gid == y
        case Some(n) => var e := Nth(db, n, Earlier(t, n, i)); e.Some? && e.value.gid == y
    {
      EachTokenItsEntry(t, db, i);
    }
    assert |Tokens(g, r)| == |t|;
  }

  /** The numbers of the groups that list a member are those of the entries that do. */
  lemma {:induction false} MembershipsAre(name: string, db: seq<Group>, y: nat)
    ensures y in Numbers(Memberships(name, db)) <==>
      exists i | 0 <= i < |db| :: name in db[i].members && db[i].gid == y
  {
    if db == [] {
    } else {
      var rest := Memberships(name, db[1..]);
      MembershipsAre(name, db[1..], y);
      assert forall i | 1 <= i < |db| :: db[i] == db[1..][i - 1];
      if name in db[0].members {
        NumbersCons(Token(None, db[0].gid), rest);
      } else {
        assert Memberships(name, db) == rest;
      }
    }
  }

  lemma NumbersCons(a: Token, rest: seq<Token>)
    requires a.name.None?
    ensures Numbers([a] + rest) == {a.gid} + Numbers(rest)
  {
    var t := [a] + rest;
    assert t[0] == a;
    forall y | y in {a.gid} + Numbers(rest) ensures y in Numbers(t) {
      if y != a.gid {
        var i :| 0 <= i < |rest| && rest[i].name.None? && rest[i].gid == y;
        assert t[i + 1] == rest[i];
      }
    }
  }

  /** The whole answer for a user given by name alone: a group is in the list exactly when it is the
      account's or some entry of the database lists the user as a member. */
  lemma GroupsOfMember(g: Given, r: Rootfs, y: nat)
    requires Wf(g) && Enumerates(g) && r.group.Some?
    ensures y in Groups(g, r) <==>
      || y == EntryOf(g, r).gid
      || exists i | 0 <= i < |r.group.value| ::
           g.name.value in r.group.value[i].members && r.group.value[i].gid == y
    ensures Gid(g, r) == EntryOf(g, r).gid
  {
    GroupsExactly(g, r);
    MembershipsAre(g.name.value, r.group.value, y);
  }

  /** The whole answer where there is no group file: the primary group and the numbers given. */
  lemma GroupsWithoutFile(g: Given, r: Rootfs, y: nat)
    requires Wf(g) && r.group.None?
    ensures y in Groups(g, r) <==>
      y == Gid(g, r) || exists i | 0 <= i < |g.tokens| :: g.tokens[i].name.None? && g.tokens[i].gid == y
  {
    GroupsExactly(g, r);
  }

  // ------------------------------------------------------ what the record decides

  /** Neither tokens nor a number say what the primary group is. */
  predicate NoGroups(g: Given) {
    g.tokens == [] && g.gid.None?
  }

  /** A known account has the home, the shell and, without tokens, the primary group of its record;
      but a user given as number 0 stays in group 0, as does uid 0 whose tokens have no number. */
  lemma RecordDecides(g: Given, r: Rootfs, i: nat)
    requires Wf(g) && r.passwd.Some? && i < |r.passwd.value| && Asked(g, r.passwd.value[i])
    requires forall j :: 0 <= j < i ==> !Asked(g, r.passwd.value[j])
    ensures var p := r.passwd.value[i];
      && Home(g, r) == p.dir && Shell(g, r) == p.shell && Fallback(g, r) == (if p.uid == 0 then 0 else p.gid)
      && (NoGroups(g) ==> Gid(g, r) == if g.uid == Some(0) then 0 else p.gid)
  {
    OneRecord(g, r, i);
  }

  /** An unknown number is its own group, and an unknown name is in group 65534 where there is no
      "nobody" either; neither has a home or shell of its own, but for root's home. */
  lemma UnknownDecides(g: Given, r: Rootfs)
    requires Wf(g) && Unknown(g, r)
    requires g.name.Some? ==> Unknown(Given(None, Some("nobody"), [], None), r)
    ensures Home(g, r) == (if g.uid == Some(0) then "/root" else "/home/.user") && Shell(g, r) == "/bin/sh"
    ensures Fallback(g, r) == if g.uid.Some? then g.uid.value else 65534
    ensures NoGroups(g) ==> Gid(g, r) == if g.uid.Some? then g.uid.value else 65534
  {
    UnknownAccount(g, r);
  }

  /** An unknown name has all three from nobody's first record. */
  lemma NobodyDecides(g: Given, r: Rootfs, i: nat)
    requires Wf(g) && g.name.Some? && Unknown(g, r) && r.passwd.Some?
    requires i < |r.passwd.value| && r.passwd.value[i].name == "nobody"
    requires forall j :: 0 <= j < i ==> r.passwd.value[j].name != "nobody"
    ensures var p := r.passwd.value[i];
      && Home(g, r) == p.dir && Shell(g, r) == p.shell && Fallback(g, r) == (if p.uid == 0 then 0 else p.gid)
      && (NoGroups(g) ==> Gid(g, r) == p.gid)
  {
    NobodysRecord(g, r, i);
  }

  /** A group id that came with the user is the primary one. */
  lemma GivenGroup(g: Given, r: Rootfs)
    requires Wf(g) && g.gid.Some?
    ensures Gid(g, r) == g.gid.value && Groups(g, r) == [g.gid.value]
  {
  }

  // ------------------------------------------------------------ primary group

  /** Resolution leaves a leading number alone. */
  lemma LeadingNumberStays(g: Given, r: Rootfs)
    requires g.tokens != [] && g.tokens[0].name.None?
    ensures Tokens(g, r) != [] && Tokens(g, r)[0] == g.tokens[0]
  {
    if r.group.Some? { EachTokenItsEntry(g.tokens, r.group.value, 0); }
  }

  /** The primary group is the first token with a number, whether given or resolved, exactly when
      the group file can be opened, the number leads the list, or the account says the same;
      with no number at all it is the account's. */
  lemma PrimaryIsFirstNumber(g: Given, r: Rootfs)
    requires Wf(g) && g.tokens != []
    ensures match FirstNumber(Tokens(g, r))
            case Some(x) => Gid(g, r) == x <==> r.group.Some? || g.tokens[0].name.None? || Fallback(g, r) == x
            case None => Gid(g, r) == Fallback(g, r)
  {
    if AnyNamed(g.tokens) && r.group.Some? && g.tokens[0].name.None? { LeadingNumberStays(g, r); }
  }

  /** Without the group file a leading name hides the number behind it: the primary group is then
      the account's, though get_groups still lists the number. */
  lemma HiddenNumber()
    ensures var g := Given(Some(7), None, [Token(Some("wheel"), 0), Token(None, 5)], None);
      var r := Rootfs(None, None);
      && Wf(g) && Gid(g, r) == 7 && FirstNumber(Tokens(g, r)) == Some(5) && Groups(g, r) == [5, 7]
  {
    var t := [Token(Some("wheel"), 0), Token(None, 5)];
    assert t[1..] == [Token(None, 5)];
    assert t[..1] == [Token(Some("wheel"), 0)];
    assert [Token(Some("wheel"), 0)][..0] == [];
  }
}
