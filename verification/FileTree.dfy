/** A tree of files and directories without symbolic links, as the system calls behind
    src/util/io.c see it. Paths are canonical: absolute, without "//", "." or "..", and without a
    final slash. */
module FileTree {

  datatype Kind = File | Dir
  type Tree = map<string, Kind>

  /** A slash that an empty name, "." or ".." follows. */
  predicate BadAt(p: string, i: nat)
    requires i < |p|
  {
    p[i] == '/' &&
    (|| i + 1 == |p| || p[i + 1] == '/'
     || (p[i + 1] == '.' && (i + 2 == |p| || p[i + 2] == '/'))
     || (p[i + 1] == '.' && i + 2 < |p| && p[i + 2] == '.' && (i + 3 == |p| || p[i + 3] == '/')))
  }

  predicate Canonical(p: string) {
    p != "" && p[0] == '/' && forall i :: 0 <= i < |p| ==> !BadAt(p, i)
  }

  function LastSlash(p: string): (n: nat)
    requires p != "" && p[0] == '/'
    ensures n < |p| && p[n] == '/' && forall i :: n < i < |p| ==> p[i] != '/'
  {
    if p[|p| - 1] == '/' then |p| - 1 else LastSlash(p[..|p| - 1])
  }

  /** The directory a path is in; the root is "". */
  function Parent(p: string): (d: string)
    requires p != "" && p[0] == '/'
    ensures |d| < |p| && (d != "" ==> d[0] == '/')
  {
    p[..LastSlash(p)]
  }

  /** Whether q is properly below p (is_prefix_dir). */
  predicate Below(p: string, q: string) {
    |p| < |q| && p == q[..|p|] && q[|p|] == '/'
  }

  datatype Found = Found(kind: Kind) | Missing | NotDir

  /** Where resolving a path ends: at a file or directory, at a missing name, or at a file that is
      used as a directory. */
  function Lookup(t: Tree, p: string): Found
    requires p != "" ==> p[0] == '/'
    decreases |p|
  {
    if p == "" then Found(Dir)
    else
      match Lookup(t, Parent(p))
      case Found(Dir) => if p in t then Found(t[p]) else Missing
      case Found(File) => NotDir
      case Missing => Missing
      case NotDir => NotDir
  }

  /** Everything in the tree is in a directory of the tree. */
  ghost predicate Wf(t: Tree) {
    forall p :: p in t ==> Canonical(p) && Lookup(t, Parent(p)) == Found(Dir)
  }

  const PATH_MAX := 4096

  /** What access says, as io_exists reports it: 0 there, 1 missing, -1 an error. */
  function Answer(t: Tree, p: string): int
    requires p != "" ==> p[0] == '/'
  {
    if |p| >= PATH_MAX then -1
    else match Lookup(t, p) case Found(_) => 0 case Missing => 1 case NotDir => -1
  }

  // ------------------------------------------------------------------- paths

  /** Above a path are its parent and what is above that. */
  lemma BelowParent(p: string, q: string)
    requires q != "" && q[0] == '/'
    ensures Below(p, q) <==> p == Parent(q) || Below(p, Parent(q))
  {
    var n := LastSlash(q);
    if Below(p, q) && |p| < n { assert q[..n][..|p|] == q[..|p|]; }
    if Below(p, Parent(q)) { assert q[..n][..|p|] == q[..|p|]; }
  }

  /** What contains the next name as one goes along a path. */
  lemma ParentNext(p: string, i: nat, next: nat)
    requires 0 < i < |p| && next == i + 1 && p[0] == '/'
    ensures Parent(p[..next]) == if p[i] == '/' then p[..i] else Parent(p[..i])
  {
    assert p[..next][..i] == p[..i];
    var n := LastSlash(p[..i]);
    assert p[..next][..n] == p[..i][..n];
  }

  lemma PrefixCanonical(p: string, i: nat)
    requires Canonical(p) && 0 < i < |p| && p[i] == '/'
    ensures Canonical(p[..i]) && Below(p[..i], p)
  {
    var q := p[..i];
    forall j | 0 <= j < |q| ensures !BadAt(q, j) {
      assert !BadAt(p, j);
    }
  }

  // ------------------------------------------------------ what a change reaches

  /** A change at one path does not reach paths that are neither it nor below it. */
  lemma {:induction false} ElsewhereSame(t: Tree, u: Tree, p: string, q: string)
    requires q != "" ==> q[0] == '/'
    requires p != "" && forall x :: x != p ==> (x in t <==> x in u) && (x in t ==> t[x] == u[x])
    requires q != p && !Below(p, q)
    ensures Lookup(u, q) == Lookup(t, q)
    decreases |q|
  {
    if q == "" {
    } else {
      BelowParent(p, q);
      ElsewhereSame(t, u, p, Parent(q));
    }
  }

  /** Above everything that is there are directories. */
  lemma {:induction false} AboveFound(t: Tree, p: string, q: string)
    requires q != "" && q[0] == '/' && Lookup(t, q).Found? && Below(p, q) && p != ""
    ensures p[0] == '/' && Lookup(t, p) == Found(Dir)
    decreases |q|
  {
    BelowParent(p, q);
    if p != Parent(q) { AboveFound(t, p, Parent(q)); }
  }

  /** Above a missing path there are directories and missing paths, never a file. */
  lemma {:induction false} AboveMissing(t: Tree, p: string, q: string)
    requires q != "" && q[0] == '/' && Lookup(t, q) == Missing && Below(p, q) && p != ""
    ensures p[0] == '/' && (Lookup(t, p) == Found(Dir) || Lookup(t, p) == Missing)
    decreases |q|
  {
    BelowParent(p, q);
    if p != Parent(q) {
      if Lookup(t, Parent(q)) == Missing { AboveMissing(t, p, Parent(q)); } else { AboveFound(t, p, Parent(q)); }
    }
  }

  /** A new directory leaves other missing paths missing. */
  lemma {:induction false} StillMissing(t: Tree, a: string, q: string)
    requires Wf(t) && q != "" && q[0] == '/' && Lookup(t, q) == Missing && q != a && a != "" && a !in t
    ensures Lookup(t[a := Dir], q) == Missing
    decreases |q|
  {
    var u, d := t[a := Dir], Parent(q);
    if Lookup(t, d) == Missing && d == a {
      NotBelowSelf(a);
      ElsewhereSame(t, u, a, Parent(a));
    } else if Lookup(t, d) == Missing {
      StillMissing(t, a, d);
    } else {
      if Below(a, d) { AboveFound(t, a, d); }
      ElsewhereSame(t, u, a, d);
    }
  }

  lemma NotBelowSelf(a: string)
    requires a != "" && a[0] == '/'
    ensures Parent(a) != a && !Below(a, Parent(a))
  {
  }

  /** Making something in an existing directory keeps the tree well-formed. */
  lemma AddedWf(t: Tree, p: string, k: Kind)
    requires Wf(t) && Canonical(p) && p !in t && Lookup(t, Parent(p)) == Found(Dir)
    ensures Wf(t[p := k]) && Lookup(t[p := k], p) == Found(k)
  {
    var u := t[p := k];
    forall q | q in u ensures Canonical(q) && Lookup(u, Parent(q)) == Found(Dir) {
      var d := Parent(q);
      NotBelowSelf(p);
      if q != p && (d == p || Below(p, d)) {
        if d != p { AboveFound(t, p, d); }
        assert false;
      }
      ElsewhereSame(t, u, p, d);
    }
    ElsewhereSame(t, u, p, Parent(p));
  }

  /** So does removing what nothing is below. */
  lemma RemovedWf(t: Tree, p: string)
    requires Wf(t) && p in t && forall q :: q in t ==> !Below(p, q)
    ensures Wf(t - {p}) && Lookup(t - {p}, p) == Missing
  {
    var u := t - {p};
    forall q | q in u ensures Canonical(q) && Lookup(u, Parent(q)) == Found(Dir) {
      BelowParent(p, q);
      ElsewhereSame(t, u, p, Parent(q));
    }
    NotBelowSelf(p);
    ElsewhereSame(t, u, p, Parent(p));
  }

  /** A file has nothing below it. */
  lemma FileIsLeaf(t: Tree, p: string, q: string)
    requires Wf(t) && p in t && t[p] == File && q in t
    ensures !Below(p, q)
  {
    if Below(p, q) { AboveFound(t, p, q); }
  }

  /** The last name of a path. */
  function Name(q: string): (n: string)
    requires q != "" && q[0] == '/'
    ensures Parent(q) + "/" + n == q
  {
    q[LastSlash(q) + 1..]
  }

  /** On the way down to something there is a child to go through. */
  lemma {:induction false} ChildToward(t: Tree, p: string, q: string) returns (c: string)
    requires Wf(t) && q in t && Below(p, q) && p != ""
    ensures c in t && Parent(c) == p && (c == q || Below(c, q))
    decreases |q|
  {
    BelowParent(p, q);
    if p == Parent(q) {
      c := q;
    } else {
      c := ChildToward(t, p, Parent(q));
      BelowParent(c, q);
    }
  }
}
