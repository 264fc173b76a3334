/** The lazily filled user_t of src/user/user.c and src/user/user_resolve.c: in whatever order the
    getters are called, they give the answers of one resolution. */
module User {
  import opened Options
  import opened Account

  datatype Getter = GetUid | GetName | GetHome | GetShell | GetGid | GetGroups | UserResolve
  datatype Answer = Id(id: nat) | Text(text: Option<string>) | Ids(ids: seq<nat>) | Nothing

  /** The one answer of each getter. */
  ghost function AnswerOf(g: Given, r: Rootfs, c: Getter): Answer
    requires Wf(g)
  {
    match c
    case GetUid => Id(EntryOf(g, r).uid)
    case GetName => Text(EntryOf(g, r).name)
    case GetHome => Text(Some(Home(g, r)))
    case GetShell => Text(Some(Shell(g, r)))
    case GetGid => Id(Gid(g, r))
    case GetGroups => Ids(Groups(g, r))
    case UserResolve => Nothing
  }

  class User {
    const rootfs: Rootfs
    ghost const given: Given

    var uid: nat
    var uidFilled: bool
    var nameGiven: bool
    var name: Option<string>
    var tokens: seq<Token>
    var gid: nat
    var gidFilled: bool
    var groups: seq<nat>        // empty until get_groups first runs
    var passwdGid: nat
    var home: Option<string>
    var shell: Option<string>
    var passwdParsed: bool
    var groupParsed: bool

    /** Each cache holds what was given until it is filled, and the resolved value after. */
    ghost predicate Valid()
      reads this
    {
      && Wf(given)
      && nameGiven == given.name.Some?
      && PasswdPart() && GroupPart()
      && (gidFilled ==> gid == Gid(given, rootfs))
      && (groups != [] ==> groupParsed && gidFilled && groups == Groups(given, rootfs))
    }

    ghost predicate PasswdPart()
      reads this
      requires Wf(given)
    {
      var e := EntryOf(given, rootfs);
      if passwdParsed then
        uidFilled && Entry(uid, name, passwdGid, home, shell) == e
      else
        && uidFilled == given.uid.Some? && (uidFilled ==> uid == given.uid.value)
        && name == given.name && home == None && shell == None
    }

    ghost predicate GroupPart()
      reads this
      requires Wf(given)
    {
      if groupParsed then
        && tokens == Tokens(given, rootfs)
        && (Enumerates(given) || given.gid.Some? || ByTokens(given, rootfs).Some? ==> gidFilled)
      else
        && tokens == given.tokens
        && (given.gid.Some? ==> gidFilled)
        && (gidFilled && tokens == [] ==> given.gid.Some?)
    }

    /** A user as the parser leaves it. */
    constructor (g: Given, r: Rootfs)
      requires Wf(g)
      ensures Valid() && given == g && rootfs == r && !passwdParsed && !groupParsed && groups == []
    {
      rootfs, given := r, g;
      uidFilled := g.uid.Some?;
      uid := if g.uid.Some? then g.uid.value else 0;
      nameGiven, name := g.name.Some?, g.name;
      tokens := g.tokens;
      gidFilled := g.gid.Some?;
      gid := if g.gid.Some? then g.gid.value else 0;
      groups, passwdGid, home, shell := [], 0, None, None;
      passwdParsed, groupParsed := false, false;
    }

    // -------------------------------------------------------- passwd entries

    method SetRootFallback()
      modifies this`name, this`home, this`passwdGid
      ensures name == ROOT.name && home == ROOT.home && passwdGid == ROOT.gid
    {
      name, home, passwdGid := Some("root"), Some("/root"), 0;
    }

    method ResolvePasswdNodb()
      requires Valid() && !passwdParsed && rootfs.passwd.None?
      modifies this`uid, this`uidFilled, this`passwdGid, this`name, this`home
      ensures uidFilled && Entry(uid, name, passwdGid, home, shell) == EntryOf(given, rootfs)
    {
      if !uidFilled {
        uid, uidFilled, passwdGid := NOBODY, true, NOBODY;
        return;
      }
      if uid != 0 {
        passwdGid := uid;
      } else {
        SetRootFallback();
      }
    }

    method ResolveByUid(pf: seq<Passwd>)
      requires Valid() && !passwdParsed && uidFilled && rootfs.passwd == Some(pf)
      modifies this`passwdGid, this`name, this`home, this`shell
      ensures Entry(uid, name, passwdGid, home, shell) == EntryOf(given, rootfs)
    {
      for i := 0 to |pf|
        invariant ByUid(pf, uid) == ByUid(pf[i..], uid)
      {
        if pf[i].uid == uid {
          name, home, shell, passwdGid := Some(pf[i].name), Some(pf[i].dir), Some(pf[i].shell), pf[i].gid;
          return;
        }
        assert pf[i..][1..] == pf[i + 1..];
      }
      if uid == 0 {
        SetRootFallback();
      } else {
        passwdGid := uid;
      }
    }

    method AssignFromPasswd(pw: Passwd)
      modifies this`uid, this`passwdGid, this`home, this`shell, this`uidFilled
      ensures uidFilled && Entry(uid, name, passwdGid, home, shell)
           == Entry(pw.uid, name, pw.gid, Some(pw.dir), Some(pw.shell))
    {
      uid, passwdGid, home, shell, uidFilled := pw.uid, pw.gid, Some(pw.dir), Some(pw.shell), true;
    }

    /** One pass over the database for an entry of that name. */
    method AssignNamed(pf: seq<Passwd>, wanted: string) returns (found: bool)
      modifies this`uid, this`passwdGid, this`home, this`shell, this`uidFilled
      ensures found == ByName(pf, wanted).Some?
      ensures if found then
          var p := ByName(pf, wanted).value;
          uidFilled && Entry(uid, name, passwdGid, home, shell) == Entry(p.uid, name, p.gid, Some(p.dir), Some(p.shell))
        else unchanged(this)
    {
      for i := 0 to |pf|
        invariant ByName(pf, wanted) == ByName(pf[i..], wanted)
        invariant unchanged(this)
      {
        if pf[i].name == wanted {
          AssignFromPasswd(pf[i]);
          return true;
        }
        assert pf[i..][1..] == pf[i + 1..];
      }
      return false;
    }

    method ResolveByName(pf: seq<Passwd>)
      requires Valid() && !passwdParsed && !uidFilled && rootfs.passwd == Some(pf)
      modifies this`uid, this`passwdGid, this`home, this`shell, this`uidFilled
      ensures uidFilled && Entry(uid, name, passwdGid, home, shell) == EntryOf(given, rootfs)
    {
      var found := AssignNamed(pf, name.value);
      if found {
        return;
      }
      found := AssignNamed(pf, "nobody");
      if found {
        return;
      }
      uid, passwdGid, uidFilled := NOBODY, NOBODY, true;
    }

    method ResolvePasswd()
      requires Valid()
      modifies this`uid, this`uidFilled, this`passwdGid, this`name, this`home, this`shell, this`passwdParsed
      ensures Valid() && passwdParsed
    {
      if passwdParsed {
        return;
      }
      if rootfs.passwd.None? {
        ResolvePasswdNodb();
      } else if uidFilled {
        ResolveByUid(rootfs.passwd.value);
      } else {
        ResolveByName(rootfs.passwd.value);
      }
      passwdParsed := true;
    }

    // ---------------------------------------------------------- group entries

    method HasNamedTokens() returns (r: bool)
      ensures r == AnyNamed(tokens)
    {
      for i := 0 to |tokens|
        invariant forall j :: 0 <= j < i ==> tokens[j].name.None?
      {
        if tokens[i].name.Some? {
          return true;
        }
      }
      return false;
    }

    method ResolveNamedInGroup(gf: seq<Group>)
      modifies this`tokens
      ensures tokens == ResolveAll(old(tokens), gf)
    {
      for k := 0 to |gf|
        invariant ResolveAll(old(tokens), gf) == ResolveAll(tokens, gf[k..])
      {
        label Entry:
        ghost var t := tokens;
        var i := 0;
        while i < |tokens|
          invariant i <= |tokens| && tokens == t
          invariant forall j :: 0 <= j < i ==> t[j].name != Some(gf[k].name)
        {
          if tokens[i].name == Some(gf[k].name) {
            tokens := tokens[i := Token(None, gf[k].gid)];
            break;
          }
          i := i + 1;
        }
        assert tokens == Resolve(t, gf[k]);
        assert gf[k..][1..] == gf[k + 1..];
      }
    }

    static method MemberOfGroup(name: string, members: seq<string>) returns (r: bool)
      ensures r == (name in members)
    {
      for i := 0 to |members|
        invariant name !in members[..i]
      {
        if members[i] == name {
          return true;
        }
      }
      return false;
    }

    method ResolveGroupsEnum()
      requires Valid() && !groupParsed && Enumerates(given)
      modifies this
      ensures Valid() && groupParsed
    {
      ResolvePasswd();
      gid, gidFilled := passwdGid, true;
      if rootfs.group.None? {
        groupParsed := true;
        return;
      }
      AddMemberships(name.value, rootfs.group.value);
      groupParsed := true;
    }

    /** A token for every group that lists the name. */
    method AddMemberships(who: string, gf: seq<Group>)
      modifies this`tokens
      ensures tokens == old(tokens) + Memberships(who, gf)
    {
      for k := 0 to |gf|
        invariant old(tokens) + Memberships(who, gf) == tokens + Memberships(who, gf[k..])
      {
        var member := MemberOfGroup(who, gf[k].members);
        MembershipsStep(who, gf, k);
        if member {
          tokens := tokens + [Token(None, gf[k].gid)];
        }
      }
    }

    method ResolveGroupsByTokens()
      requires Valid() && !groupParsed && AnyNamed(given.tokens)
      modifies this`tokens, this`groupParsed, this`gid, this`gidFilled
      ensures Valid() && groupParsed
    {
      if rootfs.group.None? {
        groupParsed := true;
        return;
      }
      ResolveNamedInGroup(rootfs.group.value);
      groupParsed := true;
      if given.tokens[0].name.None? { LeadingNumberStays(given, rootfs); }
      TakeFirstNumber();
    }

    /** The first token with a number, if there is one, settles the primary group. */
    method TakeFirstNumber()
      modifies this`gid, this`gidFilled
      ensures match FirstNumber(tokens)
        case Some(x) => gid == x && gidFilled
        case None => gid == old(gid) && gidFilled == old(gidFilled)
    {
      for i := 0 to |tokens|
        invariant gid == old(gid) && gidFilled == old(gidFilled)
        invariant FirstNumber(tokens) == FirstNumber(tokens[i..])
      {
        if tokens[i].name.None? {
          gid, gidFilled := tokens[i].gid, true;
          return;
        }
        assert tokens[i..][1..] == tokens[i + 1..];
      }
    }

    method ResolveGroups()
      requires Valid()
      modifies this
      ensures Valid() && groupParsed
    {
      if groupParsed {
        return;
      }
      if |tokens| == 0 && !gidFilled && nameGiven && name.Some? {
        ResolveGroupsEnum();
        return;
      }
      var named := HasNamedTokens();
      if !named {
        groupParsed := true;
        return;
      }
      ResolveGroupsByTokens();
    }

    // ---------------------------------------------------------------- getters

    method GetUid() returns (r: nat)
      requires Valid()
      modifies this
      ensures Valid() && r == EntryOf(given, rootfs).uid == uid
      ensures unchanged(this`gid, this`gidFilled, this`tokens, this`groupParsed, this`groups)
    {
      if uidFilled {
        return uid;
      }
      ResolvePasswd();
      return uid;
    }

    method UserResolve()
      requires Valid()
      modifies this
      ensures Valid() && passwdParsed
    {
      ResolvePasswd();
    }

    method GetName() returns (r: Option<string>)
      requires Valid()
      modifies this
      ensures Valid() && r == EntryOf(given, rootfs).name
    {
      if name.Some? {
        return name;
      }
      if !passwdParsed {
        ResolvePasswd();
      }
      return name;
    }

    method GetHome() returns (r: string)
      requires Valid()
      modifies this
      ensures Valid() && r == Home(given, rootfs)
    {
      if !passwdParsed {
        ResolvePasswd();
      }
      return if home.Some? then home.value else "/home/.user";
    }

    method GetShell() returns (r: string)
      requires Valid()
      modifies this
      ensures Valid() && r == Shell(given, rootfs)
    {
      if !passwdParsed {
        ResolvePasswd();
      }
      return if shell.Some? then shell.value else "/bin/sh";
    }

    method GetGidFromPasswd()
      requires Valid() && groupParsed && !gidFilled
      requires given.tokens == [] || given.tokens[0].name.Some?
      modifies this
      ensures Valid() && groupParsed && gidFilled
    {
      var id := GetUid();
      if !passwdParsed {
        ResolvePasswd();
      }
      if id != 0 {
        gid := passwdGid;
      } else {
        gid := id;
      }
      gidFilled := true;
    }

    method GetGid() returns (r: nat)
      requires Valid()
      modifies this
      ensures Valid() && gidFilled && r == gid == Gid(given, rootfs)
      ensures old(groupParsed) ==> groupParsed
    {
      if gidFilled {
        return gid;
      }
      if |tokens| > 0 && tokens[0].name.None? {
        gid, gidFilled := tokens[0].gid, true;
        return gid;
      }
      ResolveGroups();
      if gidFilled {
        return gid;
      }
      if given.tokens != [] && given.tokens[0].name.None? { LeadingNumberStays(given, rootfs); }
      GetGidFromPasswd();
      return gid;
    }

    static method GidAlreadyInList(list: seq<nat>, g: nat) returns (r: bool)
      ensures r == (g in list)
    {
      for i := 0 to |list|
        invariant g !in list[..i]
      {
        if list[i] == g {
          return true;
        }
      }
      return false;
    }

    method EnsurePrimaryGidInGroups()
      modifies this`groups
      ensures groups == if gid in old(groups) then old(groups) else old(groups) + [gid]
    {
      if groups != [] {
        var there := GidAlreadyInList(groups, gid);
        if there {
          return;
        }
        groups := groups + [gid];
        return;
      }
      groups := [gid];
    }

    method InsertGidSorted(g: nat)
      modifies this`groups
      ensures groups == Insert(old(groups), g)
    {
      var ins := 0;
      while ins < |groups| && groups[ins] < g
        invariant ins <= |groups|
        invariant Insert(groups, g) == groups[..ins] + Insert(groups[ins..], g)
      {
        assert groups[ins..][1..] == groups[ins + 1..];
        ins := ins + 1;
      }
      groups := groups[..ins] + [g] + groups[ins..];
    }

    method AppendRemainingGids()
      requires gid in groups
      modifies this`groups
      ensures groups == AddNumbers(old(groups), tokens)
    {
      for i := 0 to |tokens|
        invariant gid in groups && groups == AddNumbers(old(groups), tokens[..i])
      {
        assert tokens[..i + 1][..i] == tokens[..i];
        if tokens[i].name.Some? {
          continue;
        }
        var g := tokens[i].gid;
        if g == gid {
          continue;
        }
        var there := GidAlreadyInList(groups, g);
        if there {
          continue;
        }
        InsertHas(groups, g, gid);
        InsertGidSorted(g);
      }
      assert tokens[..|tokens|] == tokens;
    }

    /** The groups, the same on every call. */
    method GetGroups() returns (r: seq<nat>)
      requires Valid()
      modifies this
      ensures Valid() && r == groups == Groups(given, rootfs)
    {
      ResolveGroups();
      var _ := GetGid();
      GroupsExactly(given, rootfs);
      if groups != [] { NothingToAdd(groups, tokens); }
      ghost var before := groups;
      EnsurePrimaryGidInGroups();
      assert groups == if before == [] then [gid] else before;
      AppendRemainingGids();
      return groups;
    }

    /** Any calls in any order: every answer is the one of the resolution. */
    method Answers(calls: seq<Getter>) returns (r: seq<Answer>)
      requires Valid()
      modifies this
      ensures Valid() && |r| == |calls|
      ensures forall i :: 0 <= i < |calls| ==> r[i] == AnswerOf(given, rootfs, calls[i])
    {
      r := [];
      for i := 0 to |calls|
        invariant Valid() && |r| == i
        invariant forall j :: 0 <= j < i ==> r[j] == AnswerOf(given, rootfs, calls[j])
      {
        match calls[i]
        case GetUid => var x := GetUid(); r := r + [Id(x)];
        case GetName => var x := GetName(); r := r + [Text(x)];
        case GetHome => var x := GetHome(); r := r + [Text(Some(x))];
        case GetShell => var x := GetShell(); r := r + [Text(Some(x))];
        case GetGid => var x := GetGid(); r := r + [Id(x)];
        case GetGroups => var x := GetGroups(); r := r + [Ids(x)];
        case UserResolve => UserResolve(); r := r + [Nothing];
      }
    }
  }

  lemma MembershipsStep(name: string, gf: seq<Group>, k: nat)
    requires k < |gf|
    ensures Memberships(name, gf[k..])
         == (if name in gf[k].members then [Token(None, gf[k].gid)] else []) + Memberships(name, gf[k + 1..])
  {
    assert gf[k..][1..] == gf[k + 1..];
  }

  lemma {:induction false} InsertHas(s: seq<nat>, x: nat, y: nat)
    requires y in s
    ensures y in Insert(s, x)
  {
    if s != [] && s[0] < x {
      if y != s[0] { InsertHas(s[1..], x, y); }
    }
  }
}
