/** The cache of path existence (src/util/io_cache.c) and the operations that must keep it honest
    (src/util/io.c). */
module IoCache {
  import opened FileTree
  import opened Options

  datatype Errno = Ok | ENOENT | EEXIST | ENOTDIR | EISDIR | ENOTEMPTY | Other

  const IO_CACHE_MAX := 32

  datatype Ent = Ent(path: Option<string>, res: int)

  /** A filled entry says what access would say now. */
  predicate Tells(t: Tree, e: Ent) {
    e.path.Some? ==> Canonical(e.path.value) && e.res == Answer(t, e.path.value) >= 0
  }

  ghost predicate NoneTwice(c: seq<Ent>) {
    forall i, j :: 0 <= i < j < |c| && c[i].path.Some? ==> c[i].path != c[j].path
  }

  /** Where a path is stored: in its own slot, else in the first empty one, else in the first. */
  predicate StoredAt(c: seq<Ent>, path: string, i: nat) {
    i < |c| &&
    if exists j :: 0 <= j < |c| && c[j].path == Some(path) then c[i].path == Some(path)
    else if exists j :: 0 <= j < |c| && c[j].path == None then
      c[i].path == None && forall j :: 0 <= j < i ==> c[j].path != None
    else i == 0
  }

  /** path_is_related. */
  predicate Related(a: string, b: string) {
    a == b || Below(a, b) || Below(b, a)
  }

  /** The trees agree everywhere but at p. */
  ghost predicate SameBut(t: Tree, u: Tree, p: string) {
    forall x :: x != p ==> (x in t <==> x in u) && (x in t ==> t[x] == u[x])
  }

  /** Nothing is lost or changed, and what is new are directories on the way to p. */
  ghost predicate Grown(t: Tree, u: Tree, p: string) {
    && (forall q :: q in t ==> q in u && u[q] == t[q])
    && (forall q :: q in u && q !in t ==> u[q] == Dir && (q == p || Below(q, p)))
  }

  lemma UnrelatedTells(t: Tree, u: Tree, p: string, e: Ent)
    requires SameBut(t, u, p) && p != "" && Tells(t, e) && (e.path.Some? ==> !Related(e.path.value, p))
    ensures Tells(u, e)
  {
    if e.path.Some? { ElsewhereSame(t, u, p, e.path.value); }
  }

  /** Forgetting what is below a path is necessary: where a file comes into being, everything below
      it turns from missing into an error, and back again when the file is removed. */
  lemma BelowChangesToo(t: Tree, p: string, q: string)
    requires Wf(t) && Canonical(p) && Canonical(q) && |q| < PATH_MAX && Below(p, q)
    requires p !in t && Lookup(t, Parent(p)) == Found(Dir)
    ensures Answer(t, q) == 1 && Answer(t[p := File], q) == -1
  {
    AddedWf(t, p, File);
    BelowMissing(t, p, q);
    BelowFile(t[p := File], p, q);
  }

  lemma {:induction false} BelowMissing(t: Tree, p: string, q: string)
    requires Canonical(p) && q != "" && q[0] == '/' && Below(p, q) && Lookup(t, p) == Missing
    ensures Lookup(t, q) == Missing
    decreases |q|
  {
    BelowParent(p, q);
    if p != Parent(q) { BelowMissing(t, p, Parent(q)); }
  }

  lemma {:induction false} BelowFile(t: Tree, p: string, q: string)
    requires Canonical(p) && q != "" && q[0] == '/' && Below(p, q) && Lookup(t, p) == Found(File)
    ensures Lookup(t, q) == NotDir
    decreases |q|
  {
    BelowParent(p, q);
    if p != Parent(q) { BelowFile(t, p, Parent(q)); }
  }

  // ------------------------------------------- what the system calls answer

  function AccessErr(t: Tree, p: string): Errno
    requires p != "" ==> p[0] == '/'
  {
    if |p| >= PATH_MAX then Other
    else match Lookup(t, p) case Found(_) => Ok case Missing => ENOENT case NotDir => ENOTDIR
  }

  function MkdirErr(t: Tree, p: string): Errno
    requires Canonical(p)
  {
    match AccessErr(t, p)
    case Ok => EEXIST
    case ENOENT => if Lookup(t, Parent(p)) == Found(Dir) then Ok else ENOENT
    case e => e
  }

  function UnlinkErr(t: Tree, p: string): Errno
    requires Canonical(p)
  {
    if AccessErr(t, p) == Ok && Lookup(t, p) == Found(Dir) then EISDIR else AccessErr(t, p)
  }

  function RmdirErr(t: Tree, p: string): Errno
    requires Canonical(p)
  {
    if AccessErr(t, p) != Ok then AccessErr(t, p)
    else if Lookup(t, p) == Found(File) then ENOTDIR
    else if exists q :: q in t && Below(p, q) then ENOTEMPTY else Ok
  }

  /** open for writing, creating the file if need be. */
  function CreatErr(t: Tree, p: string): Errno
    requires Canonical(p)
  {
    match AccessErr(t, p)
    case Ok => if Lookup(t, p) == Found(Dir) then EISDIR else Ok
    case ENOENT => if Lookup(t, Parent(p)) == Found(Dir) then Ok else ENOENT
    case e => e
  }

  lemma FoundFile(t: Tree, p: string)
    requires Canonical(p) && UnlinkErr(t, p) == Ok
    ensures Lookup(t, p) == Found(File) && p in t && t[p] == File
  {
  }

  class Io {
    const healthy: bool            // whether system calls fail only for the reasons above
    var tree: Tree
    const cache: array<Ent>

    /** Every entry of the cache agrees with the tree, and no path has two entries. */
    ghost predicate Valid()
      reads this, cache
    {
      && cache.Length == IO_CACHE_MAX && Wf(tree)
      && (forall i :: 0 <= i < cache.Length ==> Tells(tree, cache[i]))
      && NoneTwice(cache[..])
    }

    constructor (tree: Tree, healthy: bool)
      requires Wf(tree)
      ensures Valid() && this.tree == tree && this.healthy == healthy && fresh(cache)
      ensures cache.Length == 32 && forall i :: 0 <= i < 32 ==> cache[i].path == None
    {
      this.tree, this.healthy := tree, healthy;
      cache := new Ent[IO_CACHE_MAX](_ => Ent(None, 0));
    }

    // ------------------------------------------------------------ system calls

    method Access(p: string) returns (e: Errno)
      requires Canonical(p)
      ensures e == AccessErr(tree, p) || (!healthy && e == Other)
    {
      if !healthy {
        if * {
          return Other;
        }
      }
      return AccessErr(tree, p);
    }

    method Mkdir(p: string) returns (e: Errno)
      requires Wf(tree) && Canonical(p)
      modifies this`tree
      ensures e == MkdirErr(old(tree), p) || (!healthy && e == Other)
      ensures tree == if e == Ok then old(tree)[p := Dir] else old(tree)
      ensures Wf(tree) && (e == Ok ==> p !in old(tree) && Lookup(tree, p) == Found(Dir))
    {
      e := MkdirErr(tree, p);
      if !healthy {
        if * {
          e := Other;
        }
      }
      if e == Ok {
        AddedWf(tree, p, Dir);
        tree := tree[p := Dir];
      }
    }

    method Unlink(p: string) returns (e: Errno)
      requires Wf(tree) && Canonical(p)
      modifies this`tree
      ensures e == UnlinkErr(old(tree), p) || (!healthy && e == Other)
      ensures tree == if e == Ok then old(tree) - {p} else old(tree)
      ensures Wf(tree) && (e == Ok ==> Lookup(old(tree), p) == Found(File) && Lookup(tree, p) == Missing)
    {
      e := UnlinkErr(tree, p);
      if !healthy {
        if * {
          e := Other;
        }
      }
      if e == Ok {
        FoundFile(tree, p);
        forall q | q in tree ensures !Below(p, q) { FileIsLeaf(tree, p, q); }
        RemovedWf(tree, p);
        tree := tree - {p};
      }
    }

    method Rmdir(p: string) returns (e: Errno)
      requires Wf(tree) && Canonical(p)
      modifies this`tree
      ensures e == RmdirErr(old(tree), p) || (!healthy && e == Other)
      ensures tree == if e == Ok then old(tree) - {p} else old(tree)
      ensures Wf(tree) && (e == Ok ==> Lookup(tree, p) == Missing)
    {
      e := RmdirErr(tree, p);
      if !healthy {
        if * {
          e := Other;
        }
      }
      if e == Ok {
        RemovedWf(tree, p);
        tree := tree - {p};
      }
    }

    method Creat(p: string) returns (e: Errno)
      requires Wf(tree) && Canonical(p)
      modifies this`tree
      ensures e == CreatErr(old(tree), p) || (!healthy && e == Other)
      ensures tree == if e == Ok then old(tree)[p := File] else old(tree)
      ensures Wf(tree) && (e == Ok ==> Lookup(tree, p) == Found(File))
    {
      e := CreatErr(tree, p);
      if !healthy {
        if * {
          e := Other;
        }
      }
      if e == Ok {
        if Lookup(tree, p) == Missing {
          AddedWf(tree, p, File);
        } else {
          assert tree[p := File] == tree;
        }
        tree := tree[p := File];
      }
    }

    /** chown to root is not even tried. */
    method Chown(foreign: bool) returns (ok: bool)
      ensures healthy || !foreign ==> ok
    {
      ok := true;
      if foreign && !healthy {
        ok := *;
      }
    }

    // ------------------------------------------------------------------- cache

    /** The cached result, or 2. */
    method CacheLookup(path: string) returns (r: int)
      requires Valid() && Canonical(path)
      ensures r == if exists i :: 0 <= i < cache.Length && cache[i].path == Some(path) then Answer(tree, path) else 2
    {
      for i := 0 to IO_CACHE_MAX
        invariant forall j :: 0 <= j < i ==> cache[j].path != Some(path)
      {
        if cache[i].path == Some(path) {
          return cache[i].res;
        }
      }
      return 2;
    }

    /** The slot of the path, and -1 exactly when it has none. */
    method CacheFind(path: string) returns (r: int)
      requires cache.Length == IO_CACHE_MAX
      ensures -1 <= r < IO_CACHE_MAX && (r >= 0 ==> cache[r].path == Some(path))
      ensures r == -1 <==> forall i :: 0 <= i < cache.Length ==> cache[i].path != Some(path)
    {
      for i := 0 to IO_CACHE_MAX
        invariant forall j :: 0 <= j < i ==> cache[j].path != Some(path)
      {
        if cache[i].path == Some(path) {
          return i;
        }
      }
      return -1;
    }

    /** The first empty slot, and -1 exactly when all are filled. */
    method CacheEmpty() returns (r: int)
      requires cache.Length == IO_CACHE_MAX
      ensures -1 <= r < IO_CACHE_MAX && (r >= 0 ==> cache[r].path == None)
      ensures forall i :: 0 <= i < r ==> cache[i].path != None
      ensures r == -1 <==> forall i :: 0 <= i < cache.Length ==> cache[i].path != None
    {
      for i := 0 to IO_CACHE_MAX
        invariant forall j :: 0 <= j < i ==> cache[j].path != None
      {
        if cache[i].path == None {
          return i;
        }
      }
      return -1;
    }

    /** Remembers a true answer in the slot where it belongs and leaves all others alone. */
    method CacheStore(path: string, res: int) returns (ghost at: nat)
      requires Valid() && Canonical(path) && res == Answer(tree, path) >= 0
      modifies cache
      ensures Valid() && StoredAt(old(cache[..]), path, at) && cache[..] == old(cache[..])[at := Ent(Some(path), res)]
    {
      var i := CacheFind(path);
      if i >= 0 {
        cache[i] := cache[i].(res := res);
        return i;
      }
      i := CacheEmpty();
      if i < 0 {
        i := 0;
      }
      cache[i] := Ent(Some(path), res);
      return i;
    }

    /** 0 there, 1 missing, -1 an error; the truth whenever it is not an error. */
    method IoExists(path: string) returns (r: int)
      requires Valid() && Canonical(path)
      modifies cache
      ensures Valid() && (r == Answer(tree, path) || (!healthy && r == -1))
      ensures (r == 0 ==> Lookup(tree, path).Found?) && (r == 1 ==> Lookup(tree, path) == Missing)
      ensures r >= 0 ==> exists i :: 0 <= i < cache.Length && cache[i] == Ent(Some(path), r)
    {
      var c := CacheLookup(path);
      if c != 2 {
        assert forall i :: 0 <= i < cache.Length && cache[i].path == Some(path) ==> cache[i] == Ent(Some(path), c);
        return c;
      }
      var e := Access(path);
      r := if e == Ok then 0 else if e == ENOENT then 1 else -1;
      if r >= 0 {
        ghost var at := CacheStore(path, r);
        assert cache[at] == cache[..][at] == Ent(Some(path), r);
      }
    }

    /** Forgets a path and everything above and below it; after a change at the path alone, what
        is left is true. */
    method CacheInvalidate(path: string, ghost was: Tree)
      requires cache.Length == IO_CACHE_MAX && NoneTwice(cache[..])
      requires Wf(tree) && Canonical(path) && SameBut(was, tree, path)
      requires forall i :: 0 <= i < cache.Length ==> Tells(was, cache[i])
      modifies cache
      ensures Valid()
      ensures forall i :: 0 <= i < cache.Length ==> var e := old(cache[i]);
        cache[i] == if e.path.Some? && (e.path.value == path || Below(e.path.value, path) || Below(path, e.path.value))
                    then Ent(None, 0) else e
    {
      for i := 0 to IO_CACHE_MAX
        invariant forall j :: 0 <= j < IO_CACHE_MAX ==>
          cache[j] == if j < i && old(cache[j]).path.Some? && Related(old(cache[j]).path.value, path) then Ent(None, 0)
                      else old(cache[j])
      {
        if cache[i].path == None || !Related(cache[i].path.value, path) {
          continue;
        }
        cache[i] := Ent(None, 0);
      }
      forall i | 0 <= i < cache.Length ensures Tells(tree, cache[i]) {
        UnrelatedTells(was, tree, path, cache[i]);
      }
    }

    // -------------------------------------------------------------- operations

    method IoUnlink(path: string) returns (r: int)
      requires Valid() && Canonical(path)
      modifies this`tree, cache
      ensures Valid() && (r == 0 || (r == -1 && tree == old(tree)))
      ensures r == 0 ==> Lookup(old(tree), path) == Found(File) && tree == old(tree) - {path}
      ensures healthy ==> (r == 0 <==> UnlinkErr(old(tree), path) == Ok)
    {
      var e := Unlink(path);
      if e != Ok {
        return -1;
      }
      CacheInvalidate(path, old(tree));
      return 0;
    }

    /** unlink_path and unlink_cached: a missing path counts as removed. */
    method UnlinkCached(path: string) returns (r: int)
      requires Valid() && Canonical(path)
      modifies this`tree, cache
      ensures Valid() && (r == 0 || r == -1) && SameBut(old(tree), tree, path)
      ensures if r == 0 then Lookup(tree, path) == Missing && UnlinkErr(old(tree), path) in {Ok, ENOENT}
              else tree == old(tree)
      ensures healthy ==> (r == 0 <==> UnlinkErr(old(tree), path) in {Ok, ENOENT})
    {
      var e := Unlink(path);
      if e != Ok && e != ENOENT {
        return -1;
      }
      CacheInvalidate(path, old(tree));
      return 0;
    }

    method IoTouch(path: string) returns (r: int)
      requires Valid() && Canonical(path)
      modifies this`tree, cache
      ensures Valid() && (r == 0 || (r == -1 && tree == old(tree)))
      ensures r == 0 ==> Lookup(tree, path) == Found(File) && tree == old(tree)[path := File]
      ensures healthy ==> (r == 0 <==> CreatErr(old(tree), path) == Ok)
    {
      var e := Creat(path);
      if e != Ok {
        return -1;
      }
      CacheInvalidate(path, old(tree));
      return 0;
    }

    /** io_isdir: 0 a directory, 1 something else, -1 an error. */
    method IoIsdir(path: string) returns (r: int)
      requires Canonical(path)
      ensures r == 0 ==> Lookup(tree, path) == Found(Dir)
      ensures healthy && AccessErr(tree, path) == Ok ==> r == if Lookup(tree, path) == Found(Dir) then 0 else 1
    {
      var e := Access(path);
      if e != Ok {
        return -1;
      }
      return if Lookup(tree, path) == Found(Dir) then 0 else 1;
    }

    method MkdirParent(path: string) returns (r: int)
      requires Valid() && Canonical(path)
      modifies this`tree, cache
      ensures Valid() && (r == 0 || r == -1) && Grown(old(tree), tree, Parent(path))
      ensures r == 0 ==> Lookup(tree, Parent(path)) == Found(Dir)
      ensures healthy && |path| < PATH_MAX ==>
        (r == 0 <==> Lookup(old(tree), Parent(path)) in {Found(Dir), Missing})
      decreases |path|, 0
    {
      var slash := LastSlash(path);
      if slash == 0 {
        return 0;
      }
      if slash >= PATH_MAX {
        return -1;
      }
      PrefixCanonical(path, slash);
      r := IoMkdir(path[..slash]);
    }

    /** mkdir_existing: fine if what is there is a directory. */
    method MkdirExisting(path: string) returns (r: int)
      requires Valid() && Canonical(path)
      modifies cache
      ensures Valid() && (r == 0 || r == -1) && (r == 0 ==> Lookup(tree, path) == Found(Dir))
      ensures healthy && AccessErr(tree, path) == Ok ==> (r == 0 <==> Lookup(tree, path) == Found(Dir))
    {
      var d := IoIsdir(path);
      if d != 0 {
        return -1;
      }
      CacheInvalidate(path, tree);
      return 0;
    }

    method MkdirDeep(path: string) returns (r: int)
      requires Valid() && Canonical(path) && |path| < PATH_MAX && Lookup(tree, path) == Missing
      modifies this`tree, cache
      ensures Valid() && (r == 0 || r == -1) && Grown(old(tree), tree, path)
      ensures r == 0 ==> Lookup(tree, path) == Found(Dir)
      ensures healthy ==> r == 0
      decreases |path|, 1
    {
      MissingParent(tree, path);
      r := MkdirParent(path);
      if r != 0 {
        return;
      }
      ghost var mid := tree;
      StillMissingAfter(old(tree), mid, path);
      var e := Mkdir(path);
      if e != Ok {
        return -1;
      }
      GrownThen(old(tree), mid, tree, path);
      CacheInvalidate(path, mid);
      return 0;
    }

    /** Makes a directory and those it is in, as far as they are missing. */
    method IoMkdir(path: string) returns (r: int)
      requires Valid() && Canonical(path)
      modifies this`tree, cache
      ensures Valid() && (r == 0 || r == -1) && Grown(old(tree), tree, path)
      ensures r == 0 ==> Lookup(tree, path) == Found(Dir)
      ensures healthy ==> (r == 0 <==> |path| < PATH_MAX && Lookup(old(tree), path) in {Found(Dir), Missing})
      decreases |path|, 2
    {
      var e := Mkdir(path);
      if e == Ok {
        CacheInvalidate(path, old(tree));
        return 0;
      }
      if e == EEXIST {
        r := MkdirExisting(path);
      } else if e == ENOENT {
        r := MkdirDeep(path);
      } else {
        r := -1;
      }
    }

    /** Makes one directory and gives it away; it stays when only that fails. */
    method MkdirChown(path: string, foreign: bool) returns (r: int)
      requires Valid() && Canonical(path)
      modifies this`tree, cache
      ensures Valid() && (r == 0 || r == -1)
      ensures if MkdirErr(old(tree), path) == Ok then tree == old(tree) || tree == old(tree)[path := Dir]
              else tree == old(tree) && r == -1
      ensures r == 0 ==> path !in old(tree) && tree == old(tree)[path := Dir] && Lookup(tree, path) == Found(Dir)
      ensures healthy && MkdirErr(old(tree), path) == Ok ==> r == 0
      ensures Grown(old(tree), tree, path)
    {
      var e := Mkdir(path);
      if e != Ok {
        return -1;
      }
      CacheInvalidate(path, old(tree));
      var ok := Chown(foreign);
      return if ok then 0 else -1;
    }

    /** One round of mkdir_parents, for the prefix that ends before slash i. */
    method MkdirPrefix(path: string, i: nat, foreign: bool, ghost start: Tree) returns (r: int)
      requires Valid() && Canonical(path) && 0 < i < |path| && path[i] == '/' && Grown(start, tree, path)
      modifies this`tree, cache
      ensures Valid() && (r == 0 || r == -1) && Grown(start, tree, path)
      ensures healthy && Easy(old(tree), path, Parent(path[..i])) ==> r == 0 && Easy(tree, path, path[..i])
    {
      PrefixCanonical(path, i);
      var prefix := path[..i];
      if Lookup(tree, path) == Missing { AboveMissing(tree, prefix, path); }
      var x := IoExists(prefix);
      if x == 0 {
        return 0;
      }
      ghost var was := tree;
      r := MkdirChown(prefix, foreign);
      GrownOnWay(start, was, tree, prefix, path);
      if r == 0 && Lookup(was, path) == Missing { StillMissing(was, prefix, path); }
    }

    /** Walks down the path and makes what is missing of the directories above it. */
    method MkdirParents(path: string, foreign: bool) returns (r: int)
      requires Valid() && Canonical(path)
      modifies this`tree, cache
      ensures Valid() && (r == 0 || r == -1) && Grown(old(tree), tree, path)
      ensures healthy && Easy(old(tree), path, "") ==> r == 0 && Easy(tree, path, Parent(path))
    {
      assert path[..|path|] == path;
      for i := 1 to |path|
        invariant Valid() && Grown(old(tree), tree, path)
        invariant healthy && Easy(old(tree), path, "") ==> Easy(tree, path, Parent(path[..i]))
      {
        ParentNext(path, i, i + 1);
        if path[i] != '/' {
          continue;
        }
        r := MkdirPrefix(path, i, foreign, old(tree));
        if r != 0 {
          return -1;
        }
      }
      return 0;
    }

    /** Makes a directory for someone, with the directories it is in; whatever is there already is
        left as it is, be it a directory or a file. */
    method IoMkdirOwn(path: string, foreign: bool) returns (r: int)
      requires Valid() && Canonical(path)
      modifies this`tree, cache
      ensures Valid() && (r == 0 || r == -1) && Grown(old(tree), tree, path)
      ensures r == 0 ==> Lookup(tree, path).Found?
      ensures r == 0 ==> forall i :: 0 < i < |path| && path[i] == '/' ==> Lookup(tree, path[..i]) == Found(Dir)
      ensures r == 0 ==> (Lookup(tree, path) == Found(Dir) <==> Lookup(old(tree), path) != Found(File))
      ensures r == 0 && Lookup(old(tree), path) == Found(File) ==> tree == old(tree)
      ensures healthy ==> (r == 0 <==> Answer(old(tree), path) >= 0)
    {
      var e := IoExists(path);
      if e < 0 {
        return -1;
      }
      if e == 0 {
        EveryPrefix(tree, path);
        return 0;
      }
      r := MkdirParents(path, foreign);
      if r != 0 {
        return -1;
      }
      ghost var was := tree;
      r := MkdirChown(path, foreign);
      if r == 0 { EveryPrefix(tree, path); }
    }

    // ----------------------------------------------------------- removing trees

    /** opendir and the names that readdir will give, "." and ".." among them. */
    method OpenDir(path: string) returns (ok: bool, names: seq<string>)
      requires Wf(tree) && Canonical(path)
      ensures ok ==> |path| < PATH_MAX && Lookup(tree, path) == Found(Dir)
      ensures healthy && |path| < PATH_MAX && Lookup(tree, path) == Found(Dir) ==> ok
      ensures ok ==> Lists(tree, path, names)
    {
      names := [".", ".."];
      var e := Access(path);
      if e != Ok || Lookup(tree, path) != Found(Dir) {
        return false, names;
      }
      var left := set q | q in tree && Parent(q) == path;
      while left != {}
        invariant forall q :: q in left ==> IsChild(tree, path, q)
        invariant forall k :: 0 <= k < |names| ==> Listed(tree, path, names[k])
        invariant forall q :: IsChild(tree, path, q) ==> q in left || Name(q) in names
        decreases |left|
      {
        var q :| q in left;
        left, names := left - {q}, names + [Name(q)];
      }
      return true, names;
    }

    /** One round of rmtree_dir, for a listed name. */
    method RemoveChild(path: string, ghost start: Tree, names: seq<string>, k: nat) returns (r: int)
      requires Valid() && Canonical(path) && |path| < PATH_MAX && path in tree && tree[path] == Dir
      requires Wf(start) && Lists(start, path, names) && k < |names| && Shrunk(start, tree, path)
      modifies this`tree, cache
      ensures Valid() && (r == 0 || r == -1) && Shrunk(start, tree, path) && path in tree && tree[path] == Dir
      ensures forall q :: q in tree ==> q in old(tree)
      ensures r == 0 ==> Finished(tree, path, names[k])
      ensures healthy && AllShort(start, path) ==> r == 0
      decreases PATH_MAX - |path|, 0
    {
      if IsDotOrDotdot(names[k]) {
        return 0;
      }
      ghost var was := tree;
      var child := path + "/" + names[k];
      Child(start, was, path, names, k, child);
      if |child| >= PATH_MAX {
        return -1;
      }
      r := IoRmtree(child);
      RemovedChild(start, was, tree, path, child);
    }

    method RmtreeDir(path: string, names: seq<string>) returns (rc: int)
      requires Valid() && Canonical(path) && |path| < PATH_MAX && path in tree && tree[path] == Dir
      requires Lists(tree, path, names)
      modifies this`tree, cache
      ensures Valid() && (rc == 0 || rc == -1) && Shrunk(old(tree), tree, path)
      ensures path in tree && tree[path] == Dir
      ensures rc == 0 ==> NothingBelow(tree, path)
      ensures healthy && AllShort(old(tree), path) ==> rc == 0
      decreases PATH_MAX - |path|, 1
    {
      rc := 0;
      ghost var start := tree;
      for k := 0 to |names|
        invariant Valid() && (rc == 0 || rc == -1) && Shrunk(start, tree, path)
        invariant path in tree && tree[path] == Dir
        invariant rc == 0 ==> Done(tree, path, names, k)
        invariant healthy && AllShort(start, path) ==> rc == 0
      {
        ghost var was := tree;
        var r := RemoveChild(path, start, names, k);
        if r != 0 {
          rc := -1;
        }
        if rc == 0 { DoneNext(was, tree, path, names, k, k + 1); }
      }
      if rc == 0 { AllDone(start, tree, path, names); }
    }

    /** Removes a path with everything below it. */
    method IoRmtree(path: string) returns (r: int)
      requires Valid() && Canonical(path)
      modifies this`tree, cache
      ensures Valid() && (r == 0 || r == -1) && Shrunk(old(tree), tree, path)
      ensures r == 0 ==> Gone(tree, path)
      ensures r == 0 ==> |path| < PATH_MAX && Lookup(old(tree), path) != NotDir && AllShort(old(tree), path)
      ensures healthy && |path| < PATH_MAX && Lookup(old(tree), path) != NotDir && AllShort(old(tree), path) ==> r == 0
      decreases PATH_MAX - |path|, 2
    {
      var ok, names := OpenDir(path);
      if !ok {
        r := UnlinkCached(path);
        if r == 0 {
          MissingIsGone(tree, path);
          AllWasShort(old(tree), tree, path);
        }
        return;
      }
      var rc := RmtreeDir(path, names);
      if rc != 0 {
        return -1;
      }
      ghost var was := tree;
      EmptyDir(was, path);
      var e := Rmdir(path);
      if e != Ok && e != ENOENT {
        return -1;
      }
      CacheInvalidate(path, was);
      AllWasShort(old(tree), tree, path);
      return 0;
    }
  }

  lemma AllWasShort(t: Tree, u: Tree, p: string)
    requires Shrunk(t, u, p) && Gone(u, p)
    ensures AllShort(t, p)
  {
  }

  /** The names that readdir gives for a directory. */
  ghost predicate Lists(t: Tree, p: string, names: seq<string>) {
    && (forall k :: 0 <= k < |names| ==> Listed(t, p, names[k]))
    && (forall q :: q in t && q != "" && q[0] == '/' && Parent(q) == p ==> Name(q) in names)
  }

  ghost predicate Listed(t: Tree, p: string, n: string) {
    IsDotOrDotdot(n) || IsChild(t, p, p + "/" + n)
  }

  ghost predicate IsChild(t: Tree, p: string, c: string) {
    c in t && c != "" && c[0] == '/' && Parent(c) == p
  }

  /** The name has been dealt with. */
  ghost predicate Finished(t: Tree, p: string, n: string) {
    IsDotOrDotdot(n) || Gone(t, p + "/" + n)
  }

  ghost predicate Done(t: Tree, p: string, names: seq<string>, k: nat) {
    k <= |names| && forall j :: 0 <= j < k ==> Finished(t, p, names[j])
  }

  ghost predicate NothingBelow(t: Tree, p: string) {
    forall q :: q in t ==> !Below(p, q)
  }

  /** A name that is listed stands for a child, there or removed by now, that can be removed if
      everything below the directory can be named. */
  lemma Child(start: Tree, was: Tree, p: string, names: seq<string>, k: nat, c: string)
    requires Wf(start) && Lists(start, p, names) && k < |names| && !IsDotOrDotdot(names[k]) && c == p + "/" + names[k]
    requires Wf(was) && Shrunk(start, was, p) && Canonical(p) && p in was && was[p] == Dir
    ensures Canonical(c) && Below(p, c) && Lookup(was, c) != NotDir
    ensures AllShort(start, p) ==> |c| < PATH_MAX && AllShort(was, c)
  {
    assert Listed(start, p, names[k]);
    ChildLookup(was, p, c);
    if AllShort(start, p) { ShortChild(start, was, p, c); }
  }

  lemma DoneNext(was: Tree, t: Tree, p: string, names: seq<string>, k: nat, next: nat)
    requires Done(was, p, names, k) && next == k + 1 <= |names| && (forall q :: q in t ==> q in was)
    requires Finished(t, p, names[k])
    ensures Done(t, p, names, next)
  {
    forall j | 0 <= j < next ensures Finished(t, p, names[j]) {
      if j < k { assert Finished(was, p, names[j]); }
    }
  }

  lemma ShortChild(start: Tree, was: Tree, p: string, c: string)
    requires AllShort(start, p) && Shrunk(start, was, p) && c in start && Below(p, c)
    ensures |c| < PATH_MAX && AllShort(was, c)
  {
    forall q | q in was && Below(c, q) ensures |q| < PATH_MAX {
      assert p == q[..|p|];
    }
  }

  lemma RemovedChild(start: Tree, was: Tree, t: Tree, p: string, c: string)
    requires Shrunk(start, was, p) && Shrunk(was, t, c) && Below(p, c) && p in was
    ensures Shrunk(start, t, p) && p in t && t[p] == was[p]
  {
    ShrunkOn(start, was, t, p, c);
  }

  lemma AllDone(start: Tree, t: Tree, p: string, names: seq<string>)
    requires Wf(t) && Canonical(p) && Lists(start, p, names) && Shrunk(start, t, p) && Done(t, p, names, |names|)
    ensures NothingBelow(t, p)
  {
    forall q | q in t ensures !Below(p, q) {
      if Below(p, q) {
        var c := ChildToward(t, p, q);
        assert c in start && Name(c) in names;
        var j :| 0 <= j < |names| && names[j] == Name(c);
        NotDotted(c);
      }
    }
  }

  lemma NotDotted(c: string)
    requires Canonical(c)
    ensures !IsDotOrDotdot(Name(c))
  {
    assert !BadAt(c, LastSlash(c));
  }

  lemma EmptyDir(t: Tree, p: string)
    requires Wf(t) && Canonical(p) && p in t && t[p] == Dir && NothingBelow(t, p) && |p| < PATH_MAX
    ensures RmdirErr(t, p) == Ok
    ensures Gone(t - {p}, p)
  {
  }

  lemma MissingIsGone(t: Tree, p: string)
    requires Wf(t) && Canonical(p) && Lookup(t, p) == Missing
    ensures Gone(t, p)
  {
    forall q | q in t ensures q != p && !Below(p, q) {
      if Below(p, q) { AboveFound(t, p, q); }
    }
  }

  const ONE_FILE: Tree := map["/f" := File]

  lemma OneFile()
    ensures Canonical("/f") && Wf(ONE_FILE) && Lookup(ONE_FILE, "/f") == Found(File)
  {
    assert LastSlash("/f") == 0;
    assert Parent("/f") == "";
  }

  /** With a file at the path, io_mkdir_own reports success and there is no directory. */
  method OwnOnFile() returns (r: int, io: Io)
    ensures r == 0 && io.Valid() && io.tree == ONE_FILE && Lookup(io.tree, "/f") == Found(File)
  {
    OneFile();
    io := new Io(ONE_FILE, true);
    r := io.IoMkdirOwn("/f", false);
  }

  /** The path is missing, and its directories are there as far as d. */
  predicate Easy(t: Tree, path: string, d: string)
    requires (path != "" ==> path[0] == '/') && (d != "" ==> d[0] == '/')
  {
    |path| < PATH_MAX && Lookup(t, path) == Missing && Lookup(t, d) == Found(Dir)
  }

  predicate IsDotOrDotdot(n: string) {
    n == "." || n == ".."
  }

  /** Nothing is left at the path or below it. */
  ghost predicate Gone(t: Tree, p: string) {
    forall q :: q in t ==> q != p && !Below(p, q)
  }

  ghost predicate AllShort(t: Tree, p: string) {
    forall q :: q in t && Below(p, q) ==> |q| < PATH_MAX
  }

  /** What is missing now was at p or below it, and short enough for system calls. */
  ghost predicate Shrunk(t: Tree, u: Tree, p: string) {
    && (forall q :: q in u ==> q in t && t[q] == u[q])
    && (forall q :: q in t && q !in u ==> (q == p || Below(p, q)) && |q| < PATH_MAX)
  }

  lemma EveryPrefix(t: Tree, p: string)
    requires Canonical(p) && Lookup(t, p).Found?
    ensures forall i :: 0 < i < |p| && p[i] == '/' ==> Lookup(t, p[..i]) == Found(Dir)
  {
    forall i | 0 < i < |p| && p[i] == '/' ensures Lookup(t, p[..i]) == Found(Dir) {
      AboveFound(t, p[..i], p);
    }
  }

  lemma GrownThen(t: Tree, mid: Tree, u: Tree, p: string)
    requires Grown(t, mid, p) && u == mid[p := Dir] && p !in mid
    ensures Grown(t, u, p) && SameBut(mid, u, p)
  {
  }

  lemma GrownOnWay(t: Tree, was: Tree, u: Tree, prefix: string, p: string)
    requires Grown(t, was, p) && Grown(was, u, prefix) && Below(prefix, p)
    ensures Grown(t, u, p)
  {
    forall q | q in u && q !in was ensures q == p || Below(q, p) {
      if Below(q, prefix) { assert q == p[..|q|]; }
    }
  }

  /** A child of an existing directory is there or missing, not out of reach. */
  lemma ChildLookup(t: Tree, p: string, c: string)
    requires Canonical(p) && c != "" && c[0] == '/' && Parent(c) == p && Lookup(t, p) == Found(Dir)
    ensures Lookup(t, c) != NotDir
  {
  }

  lemma ShrunkOn(t: Tree, was: Tree, u: Tree, p: string, c: string)
    requires Shrunk(t, was, p) && Shrunk(was, u, c) && Below(p, c)
    ensures Shrunk(t, u, p)
  {
    forall q | q in t && q !in u ensures (q == p || Below(p, q)) && |q| < PATH_MAX {
      if Below(c, q) { assert p == q[..|p|]; }
    }
  }

  lemma MissingParent(t: Tree, p: string)
    requires Canonical(p) && Lookup(t, p) == Missing
    ensures Lookup(t, Parent(p)) in {Found(Dir), Missing}
  {
  }

  /** Making directories above a missing path does not bring the path into being; and what is above
      a path's parent is above the path. */
  lemma StillMissingAfter(t: Tree, u: Tree, p: string)
    requires Wf(t) && Wf(u) && Canonical(p) && Lookup(t, p) == Missing && Grown(t, u, Parent(p))
    requires Lookup(u, Parent(p)) == Found(Dir)
    ensures Lookup(u, p) == Missing && Grown(t, u, p)
  {
    forall q | q in u && q !in t ensures u[q] == Dir && Below(q, p) {
      BelowParent(q, p);
    }
    assert p !in t && !Below(p, p);
  }
}
