/** Reading "user[:group...]" and "group:..." arguments (src/user/user_parse.c). */
module UserParse {
  import opened Options
  import opened Account
  import opened Decimals

  predicate IsDigit(c: char) {
    '0' <= c <= '9'
  }

  predicate AllDigits(s: string) {
    s != "" && forall c :: c in s ==> IsDigit(c)
  }

  /** The number that strtoul reads from a string of digits. */
  function Decimal(s: string): nat
    requires forall c :: c in s ==> IsDigit(c)
  {
    Number(Digits(s))
  }

  function Digits(s: string): (d: seq<Digit>)
    requires forall c :: c in s ==> IsDigit(c)
    ensures |d| == |s|
  {
    assert forall i :: 0 <= i < |s| ==> s[i] in s;
    seq(|s|, i requires 0 <= i < |s| && IsDigit(s[i]) => s[i] as int - '0' as int)
  }

  const UINT32_MAX := 0xFFFF_FFFF

  /** parse_id on digits: ids are 32 bits wide. */
  function ParseId(s: string): Option<nat>
    requires AllDigits(s)
  {
    if Decimal(s) <= UINT32_MAX then Some(Decimal(s)) else None
  }

  /** The token that a piece between colons denotes, if it is a legal one. */
  function TokenOf(s: string): Option<Token> {
    if s == "" || |s| >= 256 then None
    else if !AllDigits(s) then Some(Token(Some(s), 0))
    else if ParseId(s).Some? then Some(Token(None, ParseId(s).value)) else None
  }

  function FirstColon(s: string): (e: nat)
    ensures e <= |s| && ':' !in s[..e] && (e < |s| ==> s[e] == ':')
  {
    if s == "" || s[0] == ':' then 0 else 1 + FirstColon(s[1..])
  }

  /** The pieces between colons. */
  function Split(s: string): (p: seq<string>)
    ensures p != []
  {
    var e := FirstColon(s);
    if e == |s| then [s] else [s[..e]] + Split(s[e + 1..])
  }

  /** Pieces joined by colons. */
  function Join(p: seq<string>): string
    requires p != []
  {
    if |p| == 1 then p[0] else p[0] + ":" + Join(p[1..])
  }

  function Colons(s: string): nat {
    if s == "" then 0 else (if s[0] == ':' then 1 else 0) + Colons(s[1..])
  }

  lemma {:induction false} SplitIsInverse(s: string)
    ensures Join(Split(s)) == s && forall i :: 0 <= i < |Split(s)| ==> ':' !in Split(s)[i]
  {
    var e := FirstColon(s);
    if e < |s| {
      SplitIsInverse(s[e + 1..]);
      assert Split(s)[1..] == Split(s[e + 1..]);
      assert s == s[..e] + ":" + s[e + 1..];
    }
  }

  lemma {:induction false} FirstColonAt(a: string, b: string)
    requires ':' !in a && (b == "" || b[0] == ':')
    ensures FirstColon(a + b) == |a|
  {
    if a == "" {
      assert a + b == b;
    } else {
      assert (a + b)[1..] == a[1..] + b;
      FirstColonAt(a[1..], b);
    }
  }

  lemma SplitCons(a: string, b: string, s: string)
    requires ':' !in a && s == a + (":" + b)
    ensures Split(s) == [a] + Split(b)
  {
    FirstColonAt(a, ":" + b);
    assert s[..|a|] == a && s[|a| + 1..] == b;
  }

  /** Any list of pieces without colons is read back from its joined form. */
  lemma {:induction false} JoinIsInverse(p: seq<string>)
    requires p != [] && forall i :: 0 <= i < |p| ==> ':' !in p[i]
    ensures Split(Join(p)) == p
  {
    if |p| == 1 {
      FirstColonAt(p[0], "");
      assert p[0] + "" == p[0];
    } else {
      JoinIsInverse(p[1..]);
      assert Join(p) == p[0] + (":" + Join(p[1..]));
      SplitCons(p[0], Join(p[1..]), Join(p));
    }
  }

  lemma {:induction false} ColonsFrom(s: string, e: nat)
    requires e <= |s| && ':' !in s[..e]
    ensures Colons(s) == Colons(s[e..])
  {
    if e == 0 {
    } else {
      assert s[0] in s[..e] && s[1..][..e - 1] == s[..e][1..] && s[1..][e - 1..] == s[e..];
      ColonsFrom(s[1..], e - 1);
    }
  }

  /** There are as many pieces as count_tokens makes room for. */
  lemma {:induction false} PiecesCounted(s: string)
    ensures |Split(s)| == Colons(s) + 1
  {
    var e := FirstColon(s);
    ColonsFrom(s, e);
    if e < |s| {
      PiecesCounted(s[e + 1..]);
      assert s[e..][1..] == s[e + 1..];
    }
  }

  method AllDigitsOf(s: string) returns (r: bool)
    ensures r == AllDigits(s)
  {
    if s == "" {
      return false;
    }
    for i := 0 to |s|
      invariant forall j :: 0 <= j < i ==> IsDigit(s[j])
    {
      assert s[i] in s;
      if s[i] < '0' || s[i] > '9' {
        return false;
      }
    }
    return true;
  }

  /** The room that append_tokens makes. */
  method CountTokens(s: string) returns (n: nat)
    ensures n == if s == "" then 0 else Colons(s) + 1
  {
    if s == "" {
      return 0;
    }
    n := 1;
    for i := 0 to |s|
      invariant n + Colons(s[i..]) == 1 + Colons(s)
    {
      assert s[i..][1..] == s[i + 1..];
      if s[i] == ':' {
        n := n + 1;
      }
    }
  }

  method ParseOneToken(s: string) returns (t: Option<Token>)
    ensures t == TokenOf(s)
  {
    if |s| == 0 || |s| >= 256 {
      return None;
    }
    var digits := AllDigitsOf(s);
    if digits {
      var id := ParseId(s);
      if id.None? {
        return None;
      }
      return Some(Token(None, id.value));
    }
    return Some(Token(Some(s), 0));
  }

  /** The tokens of the pieces up to the first that is not legal. */
  function Tokens(p: seq<string>): (t: seq<Token>)
    ensures |t| <= |p| && forall i :: 0 <= i < |t| ==> TokenOf(p[i]) == Some(t[i])
    ensures |t| < |p| ==> TokenOf(p[|t|]) == None
  {
    if p == [] || TokenOf(p[0]).None? then [] else [TokenOf(p[0]).value] + Tokens(p[1..])
  }

  /** The k-th piece starts at a. */
  ghost predicate Starts(s: string, p: seq<string>, k: nat, a: nat) {
    a <= |s| && k < |p| && p[k..] == Split(s[a..])
  }

  lemma FirstStarts(s: string)
    ensures Starts(s, Split(s), 0, 0)
  {
    assert s[0..] == s && Split(s)[0..] == Split(s);
  }

  lemma PieceAt(s: string, p: seq<string>, k: nat, a: nat, e: nat)
    requires Starts(s, p, k, a) && e == a + FirstColon(s[a..]) <= |s|
    ensures p[k] == s[a..e] && if e == |s| then k + 1 == |p| else Starts(s, p, k + 1, e + 1)
  {
    assert p[k] == p[k..][0];
    if e < |s| {
      assert s[a..][e - a + 1..] == s[e + 1..];
      assert p[k + 1..] == p[k..][1..];
    } else {
      assert |p[k..]| == 1;
    }
  }

  lemma TokenAt(p: seq<string>, k: nat)
    requires k < |p| && k <= |Tokens(p)|
    ensures match TokenOf(p[k]) case None => |Tokens(p)| == k case Some(t) => k < |Tokens(p)| && Tokens(p)[k] == t
  {
  }

  lemma OneMore(t: seq<Token>, want: seq<Token>, k: nat)
    requires k < |want|
    ensures t + want[..k] + [want[k]] == t + want[..k + 1]
    ensures k + 1 == |want| ==> t + want[..k + 1] == t + want
  {
    assert want[..k] + [want[k]] == want[..k + 1];
  }

  method SkipColon(s: string, a: nat) returns (e: nat)
    requires a <= |s|
    ensures e == a + FirstColon(s[a..]) <= |s|
  {
    e := a;
    while e < |s| && s[e] != ':'
      invariant a <= e <= |s| && e + FirstColon(s[e..]) == a + FirstColon(s[a..])
    {
      assert s[e..][1..] == s[e + 1..];
      e := e + 1;
    }
  }

  /** Reads the tokens of s behind those in t. It succeeds exactly when every piece is legal, and
      never needs more room than CountTokens found. */
  method FillTokens(t: seq<Token>, s: string, room: nat) returns (ok: bool, r: seq<Token>)
    requires room == |t| + Colons(s) + 1
    ensures r == t + Tokens(Split(s)) && |r| <= room
    ensures ok <==> |r| == room
  {
    ok, r := true, t;
    var a := 0;
    ghost var p, k := Split(s), 0;
    PiecesCounted(s);
    FirstStarts(s);
    assert t + Tokens(p)[..0] == t;
    var more := true;
    while more
      invariant if more then Filled(s, p, k, a, t, r) else r == t + Tokens(p) && (ok <==> |r| == room)
      decreases more, |s| - a
    {
      more, ok, r, a := FillOne(s, a, r, room, p, k, t);
      k := k + 1;
    }
  }

  /** One round of fill_tokens. */
  method FillOne(s: string, a: nat, was: seq<Token>, room: nat, ghost p: seq<string>, ghost k: nat, ghost t: seq<Token>)
    returns (more: bool, ok: bool, r: seq<Token>, next: nat)
    requires Filled(s, p, k, a, t, was) && room == |t| + |p|
    ensures if more then next > a && Filled(s, p, k + 1, next, t, r) else r == t + Tokens(p) && (ok <==> |r| == room)
  {
    var e := SkipColon(s, a);
    FillStep(s, p, k, a, e, t, was);
    var token := ParseOneToken(s[a..e]);
    assert |was| < room;
    if token.None? {
      return false, false, was, e;
    }
    return e < |s|, true, was + [token.value], e + 1;
  }

  /** The tokens of the first k pieces have been read, and the next piece starts at a. */
  ghost predicate Filled(s: string, p: seq<string>, k: nat, a: nat, t: seq<Token>, r: seq<Token>) {
    Starts(s, p, k, a) && k <= |Tokens(p)| && r == t + Tokens(p)[..k]
  }

  /** Reading the next piece either ends it all or gives one token more. */
  lemma FillStep(s: string, p: seq<string>, k: nat, a: nat, e: nat, t: seq<Token>, r: seq<Token>)
    requires Filled(s, p, k, a, t, r) && e == a + FirstColon(s[a..]) <= |s|
    ensures |r| == |t| + k < |t| + |p|
    ensures match TokenOf(s[a..e])
      case None => r == t + Tokens(p)
      case Some(x) =>
        if e == |s| then r + [x] == t + Tokens(p) && |Tokens(p)| == |p| else Filled(s, p, k + 1, e + 1, t, r + [x])
  {
    PieceAt(s, p, k, a, e);
    TokenAt(p, k);
    if k < |Tokens(p)| {
      OneMore(t, Tokens(p), k);
    } else {
      assert Tokens(p)[..k] == Tokens(p);
    }
  }

  /** A colon-separated list of tokens; the empty list is legal, an empty piece is not. */
  function List(s: string): Option<seq<Token>> {
    if s == "" then Some([])
    else if |Tokens(Split(s))| == |Split(s)| then Some(Tokens(Split(s))) else None
  }

  method AppendTokens(t: seq<Token>, s: string) returns (r: Option<seq<Token>>)
    ensures r == match List(s) case Some(x) => Some(t + x) case None => None
  {
    var nt := CountTokens(s);
    if nt == 0 {
      assert t + [] == t;
      return Some(t);
    }
    PiecesCounted(s);
    var ok, x := FillTokens(t, s, |t| + nt);
    return if ok then Some(x) else None;
  }

  /** What comes before the first colon: a number is a uid, anything else a name. */
  function Identity(s: string): Option<Given> {
    if s == "" || |s| >= 256 then None
    else if !AllDigits(s) then Some(Given(None, Some(s), [], None))
    else if ParseId(s).Some? then Some(Given(ParseId(s), None, [], None)) else None
  }

  /** The user that "-u s -g g" means; an empty s is root. */
  function Parsed(s: string, g: string): Option<Given> {
    var c := FirstColon(s);
    var id := if s == "" then Some(Given(Some(0), None, [], None)) else Identity(s[..c]);
    var own := if c < |s| then List(s[c + 1..]) else Some([]);
    if id.Some? && List(g).Some? && own.Some? then Some(id.value.(tokens := List(g).value + own.value)) else None
  }

  method ParseUserBody(s: string, g: string) returns (u: Option<Given>)
    ensures u == Parsed(s, g)
  {
    var t: Option<seq<Token>>;
    if s == "" {
      t := AppendTokens([], g);
      assert t.Some? ==> t.value == List(g).value == List(g).value + [];
      return if t.Some? then Some(Given(Some(0), None, t.value, None)) else None;
    }
    assert s[0..] == s;
    var colon := SkipColon(s, 0);
    var id := s[..colon];
    if |id| == 0 || |id| >= 256 {
      return None;
    }
    var digits := AllDigitsOf(id);
    if digits && ParseId(id).None? {
      return None;
    }
    var uid, name := if digits then ParseId(id) else None, if digits then None else Some(id);
    t := AppendTokens([], g);
    if t.None? {
      return None;
    }
    assert t.value == List(g).value == List(g).value + [];
    if colon < |s| {
      t := AppendTokens(t.value, s[colon + 1..]);
      if t.None? {
        return None;
      }
    }
    return Some(Given(uid, name, t.value, None));
  }

  /** The digits of a number as characters. */
  function Printed(n: nat): (s: string)
    ensures s != "" && forall c :: c in s ==> IsDigit(c)
  {
    var d := Spelled(n);
    seq(|d|, i requires 0 <= i < |d| => ('0' as int + d[i]) as char)
  }

  lemma PrintedReads(n: nat)
    requires n <= UINT32_MAX
    ensures AllDigits(Printed(n)) && |Printed(n)| <= 10 && Decimal(Printed(n)) == n
  {
    SpelledReads(n);
    assert Pow10(10) == 10 * (10 * (10 * (10 * (10 * (10 * (10 * (10 * (10 * 10)))))))) by {
      assert Pow10(4) == 10000 && Pow10(8) == 10000 * Pow10(4);
    }
    SpelledShort(n, 10);
    assert Digits(Printed(n)) == Spelled(n);
  }

  /** Written in digits. */
  predicate Numeric(s: string) {
    forall c :: c in s ==> '0' <= c <= '9'
  }

  /** What a token can be: a number of 32 bits, written in digits, is a group id, and everything else
      of at most 255 characters is a name. */
  lemma TokenIs(s: string, t: Token)
    ensures TokenOf(s) == Some(t) <==>
      && 0 < |s| <= 255
      && (Numeric(s) ==> t == Token(None, Number(Digits(s))) && t.gid < 0x1_0000_0000)
      && (!Numeric(s) ==> t == Token(Some(s), 0))
  {
  }

  /** Every 32-bit number can be written as a token. */
  lemma NumberToken(n: nat)
    requires n < 0x1_0000_0000
    ensures TokenOf(Printed(n)) == Some(Token(None, n))
  {
    PrintedReads(n);
  }

  /** The resolver starts from a well-formed state: an id or a name, never both. */
  lemma ParsedWf(s: string, g: string)
    ensures Parsed(s, g).Some? ==> Wf(Parsed(s, g).value)
  {
  }

  /** Groups written behind the user mean what they mean as a separate argument. */
  lemma GroupsEitherWay(id: string, groups: string)
    requires id != "" && ':' !in id
    ensures Parsed(id + ":" + groups, "") == Parsed(id, groups)
  {
    var s := id + ":" + groups;
    FirstColonAt(id, ":" + groups);
    assert s == id + (":" + groups);
    FirstColonAt(id, "");
    assert id + "" == id && id[..|id|] == id;
    assert s[..|id|] == id && s[|id| + 1..] == groups;
    if List(groups).Some? {
      assert [] + List(groups).value == List(groups).value == List(groups).value + [];
    }
  }

  /** Any list of legal pieces is accepted and means their tokens in order. */
  lemma ListOfPieces(p: seq<string>, t: seq<Token>)
    requires p != [] && |t| == |p|
    requires forall i :: 0 <= i < |p| ==> ':' !in p[i] && TokenOf(p[i]) == Some(t[i])
    ensures List(Join(p)) == Some(t)
  {
    JoinIsInverse(p);
    assert p[0] != "";
    assert Tokens(p) == t;
  }

  /** The pieces of a list and the tokens they are; an empty list has none. */
  ghost predicate Means(p: seq<string>, t: seq<Token>) {
    |t| == |p| && forall i :: 0 <= i < |p| ==> ':' !in p[i] && TokenOf(p[i]) == Some(t[i])
  }

  /** A list in an argument. */
  function Listing(p: seq<string>): string {
    if p == [] then "" else Join(p)
  }

  lemma ListingMeans(p: seq<string>, t: seq<Token>)
    requires Means(p, t)
    ensures List(Listing(p)) == Some(t)
  {
    if p == [] { assert t == []; } else { ListOfPieces(p, t); }
  }

  /** What comes before the first colon: a number of 32 bits, written in digits, is a uid, and anything
      else of at most 255 characters is a name. */
  lemma IdentityIs(s: string, u: Given)
    ensures Identity(s) == Some(u) <==>
      && 0 < |s| <= 255
      && (Numeric(s) ==> u == Given(Some(Number(Digits(s))), None, [], None) && u.uid.value < 0x1_0000_0000)
      && (!Numeric(s) ==> u == Given(None, Some(s), [], None))
  {
  }

  lemma ColonApart(id: string, own: string, g: string)
    requires id != "" && ':' !in id && Identity(id).Some? && List(g).Some? && List(own).Some?
    ensures Parsed(id + ":" + own, g) == Some(Identity(id).value.(tokens := List(g).value + List(own).value))
  {
    var s := id + ":" + own;
    assert s == id + (":" + own);
    FirstColonAt(id, ":" + own);
    assert s[..|id|] == id && s[|id| + 1..] == own;
  }

  /** The whole argument: the groups of the other argument come first, and those behind the user
      after them. */
  lemma WholeUser(id: string, u: Given, sep: seq<string>, a: seq<Token>, own: seq<string>, b: seq<Token>)
    requires ':' !in id && Identity(id) == Some(u) && own != [] && Means(sep, a) && Means(own, b)
    ensures Parsed(id + ":" + Join(own), Listing(sep)) == Some(u.(tokens := a + b))
  {
    ListingMeans(sep, a);
    ListingMeans(own, b);
    ColonApart(id, Join(own), Listing(sep));
  }

  /** Without a colon there are only the groups of the other argument, and nothing at all is root. */
  lemma UserAlone(id: string, sep: seq<string>, a: seq<Token>)
    requires ':' !in id && Means(sep, a)
    ensures id == "" ==> Parsed(id, Listing(sep)) == Some(Given(Some(0), None, a, None))
    ensures id != "" && Identity(id).Some? ==> Parsed(id, Listing(sep)) == Some(Identity(id).value.(tokens := a))
    ensures id != "" && Identity(id).None? ==> Parsed(id, Listing(sep)) == None
  {
    ListingMeans(sep, a);
    FirstColonAt(id, "");
    assert id + "" == id && id[..|id|] == id && a + [] == a;
  }
}
