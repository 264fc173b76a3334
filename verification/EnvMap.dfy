/** The environment map of src/util/env_map.c: four parallel arrays, linear probing, growth. */
module EnvMap {
  import opened Options
  import opened ProbeTable

  class EnvMap {
    const hash: string -> nat       // any hash function
    var hashes: array<nat>
    var keys: array<string>
    var vals: array<string>
    var used: array<bool>
    var cap: nat
    var len: nat
    ghost var Contents: map<string, string>

    ghost predicate Shaped()
      reads `hashes, `keys, `vals, `used, `cap
    {
      && hashes.Length == keys.Length == vals.Length == used.Length == cap > 0 && keys != vals
    }

    ghost function Snap(): (t: Tab)
      reads `hashes, `keys, `vals, `used, `cap, hashes, keys, vals, used
      requires Shaped()
      ensures Shape(t) && |t.us| == cap
    {
      Tab(used[..], hashes[..], keys[..], vals[..])
    }

    /** The arrays represent Contents. */
    ghost predicate Holding()
      reads `hashes, `keys, `vals, `used, `cap, `Contents, hashes, keys, vals, used
    {
      Shaped() && Represents(Snap(), hash, Contents)
    }

    /** Between operations at most seven tenths of the slots are used, so probing ends. */
    ghost predicate Valid()
      reads this, hashes, keys, vals, used
    {
      Holding() && len == |Contents| && len <= cap * 7 / 10
    }

    /** An empty map of nc slots (alloc_map). */
    constructor Alloc(hash: string -> nat, nc: nat)
      requires nc > 0
      ensures Valid() && this.hash == hash && cap == nc && Contents == map[]
      ensures fresh(hashes) && fresh(keys) && fresh(vals) && fresh(used)
    {
      this.hash := hash;
      hashes := new nat[nc](_ => 0);
      keys := new string[nc](_ => "");
      vals := new string[nc](_ => "");
      used := new bool[nc](_ => false);
      cap, len, Contents := nc, 0, map[];
      new;
      CountNone(used[..]);
    }

    /** The slot that holds k, or the empty slot where its walk ends. */
    method Lookup(h: nat, k: string) returns (found: bool, i: nat)
      requires Holding() && |Contents| < cap && h == hash(k)
      ensures i < cap && found == (k in Contents)
      ensures found ==> used[i] && keys[i] == k
      ensures !found ==> !used[i] && PathFull(used[..], Home(h, cap), i)
    {
      ghost var t := Snap();
      ghost var e := EmptySlot(t.us);
      ghost var home := Home(h, cap);
      i := h % cap;
      while used[i]
        invariant i < cap && Walked(t, home, k, i)
        decreases cap - Dist(home, i, cap)
      {
        if hashes[i] == h && keys[i] == k {
          assert SlotOk(t, hash, Contents, i);
          return true, i;
        }
        assert SlotOk(t, hash, Contents, i);
        WalkOn(t, home, k, i, e);
        i := Wrap(i, cap);
      }
      WalkMiss(t, hash, Contents, k, home, i);
      return false, i;
    }

    /** The first empty slot on the walk of hash h. */
    method FirstFree(h: nat) returns (idx: nat)
      requires Holding() && |Contents| < cap
      ensures idx < cap && !used[idx] && PathFull(used[..], Home(h, cap), idx)
    {
      ghost var e := EmptySlot(used[..]);
      idx := Probe(h, e);
    }

    /** The probe, which ends at the latest in an empty slot that there is. */
    method Probe(h: nat, ghost e: nat) returns (idx: nat)
      requires Shaped() && e < cap && !used[e]
      ensures idx < cap && !used[idx] && PathFull(used[..], Home(h, cap), idx)
    {
      ghost var us, home := used[..], Home(h, cap);
      idx := h % cap;
      while used[idx]
        invariant idx < cap && PathFull(us, home, idx)
        decreases cap - Dist(home, idx, cap)
      {
        NextProbe(home, idx, e, cap);
        idx := Wrap(idx, cap);
      }
    }

    /** Fills the empty slot i. */
    method Store(i: nat, h: nat, k: string, v: string)
      requires Holding() && k !in Contents && h == hash(k)
      requires i < cap && !used[i] && PathFull(used[..], Home(h, cap), i)
      modifies `Contents, hashes, keys, vals, used
      ensures Holding() && Contents == old(Contents)[k := v]
    {
      ghost var t := Snap();
      hashes[i] := h;
      keys[i] := k;
      vals[i] := v;
      used[i] := true;
      Insert(t, Snap(), hash, Contents, k, v, i);
      Contents := Contents[k := v];
    }

    method StoreFirstFree(h: nat, k: string, v: string)
      requires Holding() && |Contents| < cap && k !in Contents && h == hash(k)
      modifies `Contents, hashes, keys, vals, used
      ensures Holding() && Contents == old(Contents)[k := v]
    {
      var idx := FirstFree(h);
      Store(idx, h, k, v);
    }

    /** The two maps share no array. */
    ghost predicate Apart(dst: EnvMap)
      reads this, dst
    {
      && dst != this && dst.hash == hash && dst.hashes != hashes && dst.used != used
      && dst.keys != keys && dst.keys != vals && dst.vals != keys && dst.vals != vals
    }

    /** One round of map_rehash. */
    method MoveSlot(dst: EnvMap, i: nat, ghost t: Tab)
      requires Holding() && t == Snap() && i < cap && |Contents| < dst.cap
      requires Apart(dst) && dst.Holding() && dst.Contents == Prefix(t, i)
      modifies dst`Contents, dst.hashes, dst.keys, dst.vals, dst.used
      ensures Snap() == t && dst.Holding() && dst.Contents == Prefix(t, i + 1)
    {
      if !used[i] {
        return;
      }
      NextEntry(t, hash, Contents, i, dst.cap);
      dst.StoreFirstFree(hashes[i], keys[i], vals[i]);
    }

    /** Moves every entry into dst (map_rehash). */
    method Rehash(dst: EnvMap)
      requires Holding() && |Contents| < dst.cap
      requires Apart(dst) && dst.Holding() && dst.Contents == map[]
      modifies dst`Contents, dst.hashes, dst.keys, dst.vals, dst.used
      ensures dst.Holding() && dst.Contents == Contents && Holding()
    {
      ghost var t, c := Snap(), Contents;
      for i := 0 to cap
        invariant Snap() == t && dst.Holding() && dst.Contents == Prefix(t, i)
      {
        MoveSlot(dst, i, t);
      }
      PrefixAll(t, hash, c);
    }

    method Resize(nc: nat)
      requires Holding() && len == |Contents| < nc && len <= nc * 7 / 10
      modifies `hashes, `keys, `vals, `used, `cap
      ensures Valid() && cap == nc
      ensures fresh(hashes) && fresh(keys) && fresh(vals) && fresh(used)
    {
      var n := Rehashed(nc);
      Adopt(n);
    }

    /** A new table of that capacity with the same entries. */
    method Rehashed(nc: nat) returns (n: EnvMap)
      requires Holding() && |Contents| < nc
      ensures fresh(n) && fresh(n.hashes) && fresh(n.keys) && fresh(n.vals) && fresh(n.used)
      ensures n.Holding() && n.hash == hash && n.cap == nc && n.Contents == Contents
    {
      n := new EnvMap.Alloc(hash, nc);
      Rehash(n);
    }

    /** Takes over the arrays of n. */
    method Adopt(n: EnvMap)
      requires n != this && n.Holding() && n.hash == hash && n.Contents == Contents
      modifies `hashes, `keys, `vals, `used, `cap
      ensures Holding() && cap == n.cap
      ensures hashes == n.hashes && keys == n.keys && vals == n.vals && used == n.used
    {
      ghost var t := n.Snap();
      hashes, keys, vals, used, cap := n.hashes, n.keys, n.vals, n.used, n.cap;
      assert Snap() == t;
    }

    /** Grows a map that is seven tenths full, so that one more entry leaves it valid, to twice its
        slots and by no less than 64. */
    method MaybeGrow()
      requires Valid()
      modifies `hashes, `keys, `vals, `used, `cap
      ensures Valid() && len + 1 <= cap * 7 / 10
      ensures cap == old(cap) + if len < old(cap) * 7 / 10 then 0 else if old(cap) >= 64 then old(cap) else 64
      ensures (hashes == old(hashes) || fresh(hashes)) && (keys == old(keys) || fresh(keys))
      ensures (vals == old(vals) || fresh(vals)) && (used == old(used) || fresh(used))
    {
      if len >= cap * 7 / 10 {
        Resize(cap + if cap >= 64 then cap else 64);
      }
    }

    method Put(k: string, v: string)
      requires Valid()
      modifies this, hashes, keys, vals, used
      ensures Valid() && Contents == old(Contents)[k := v] && cap >= old(cap)
      ensures (hashes == old(hashes) || fresh(hashes)) && (keys == old(keys) || fresh(keys))
      ensures (vals == old(vals) || fresh(vals)) && (used == old(used) || fresh(used))
    {
      MaybeGrow();
      PutWithRoom(k, v);
    }

    method PutWithRoom(k: string, v: string)
      requires Valid() && len + 1 <= cap * 7 / 10
      modifies `Contents, `len, hashes, keys, vals, used
      ensures Valid() && Contents == old(Contents)[k := v]
    {
      SizeAfterPut(Contents, k, v);
      var added := PutSlot(k, v);
      if added {
        len := len + 1;
      }
    }

    /** Sets the value in the key's slot, or fills the slot where the key belongs. */
    method PutSlot(k: string, v: string) returns (added: bool)
      requires Holding() && |Contents| < cap
      modifies `Contents, hashes, keys, vals, used
      ensures Holding() && added == (k !in old(Contents)) && Contents == old(Contents)[k := v]
    {
      var h := hash(k);
      var found, i := Lookup(h, k);
      if found {
        SetValue(i, v);
        return false;
      }
      Store(i, h, k, v);
      return true;
    }

    /** Puts the pairs in order, as parse_envs does with the given variables. */
    method PutAll(ops: seq<(string, string)>)
      requires Valid()
      modifies this, hashes, keys, vals, used
      ensures Valid() && Contents == Puts(old(Contents), ops)
    {
      for n := 0 to |ops|
        invariant Valid() && Contents == Puts(old(Contents), ops[..n])
        invariant (hashes == old(hashes) || fresh(hashes)) && (keys == old(keys) || fresh(keys))
        invariant (vals == old(vals) || fresh(vals)) && (used == old(used) || fresh(used))
      {
        assert ops[..n + 1][..n] == ops[..n];
        Put(ops[n].0, ops[n].1);
      }
      assert ops[..|ops|] == ops;
    }

    method SetValue(i: nat, v: string)
      requires Holding() && i < cap && used[i]
      modifies `Contents, vals
      ensures Holding() && keys[i] in old(Contents) && Contents == old(Contents)[keys[i] := v]
    {
      ghost var t := Snap();
      assert SlotOk(t, hash, Contents, i);
      vals[i] := v;
      Replace(t, Snap(), hash, Contents, keys[i], v, i);
      Contents := Contents[keys[i] := v];
    }

    method Get(k: string) returns (v: Option<string>)
      requires Valid()
      ensures v == if k in Contents then Some(Contents[k]) else None
    {
      var found, i := Lookup(hash(k), k);
      if found {
        assert SlotOk(Snap(), hash, Contents, i);
        return Some(vals[i]);
      }
      return None;
    }

    /** Puts k only if it is absent and v is not empty (env_map_ensure). */
    method Ensure(k: string, v: string)
      requires Valid()
      modifies this, hashes, keys, vals, used
      ensures Valid()
      ensures Contents == if v == "" || k in old(Contents) then old(Contents) else old(Contents)[k := v]
    {
      if v == "" {
        return;
      }
      var got := Get(k);
      if got.None? {
        Put(k, v);
      }
    }

    /** One "key=value" for each key. `order` lists the keys in the order of the result. */
    method Build() returns (a: seq<string>, ghost order: seq<string>)
      requires Valid()
      ensures |a| == len && Renders(a, order, Contents) && Lists(order, Contents)
    {
      ghost var t := Snap();
      a, order := [], [];
      for i := 0 to cap
        invariant a == Lines(t, i) && order == Order(t, i)
      {
        if !used[i] {
          continue;
        }
        a := a + [keys[i] + "=" + vals[i]];
        order := order + [keys[i]];
      }
      LinesRender(t, hash, Contents, cap);
      PrefixAll(t, hash, Contents);
    }
  }

  /** The keys and the lines of the first n slots, in the order of the slots. */
  ghost function Order(t: Tab, n: nat): seq<string>
    requires Shape(t) && n <= |t.us|
  {
    if n == 0 then [] else Order(t, n - 1) + if t.us[n - 1] then [t.ks[n - 1]] else []
  }

  ghost function Lines(t: Tab, n: nat): seq<string>
    requires Shape(t) && n <= |t.us|
  {
    if n == 0 then [] else Lines(t, n - 1) + if t.us[n - 1] then [t.ks[n - 1] + "=" + t.vs[n - 1]] else []
  }

  lemma {:induction false} LinesRender(t: Tab, hash: string -> nat, c: map<string, string>, n: nat)
    requires Represents(t, hash, c) && n <= |t.us|
    ensures Lists(Order(t, n), Prefix(t, n)) && Renders(Lines(t, n), Order(t, n), c)
  {
    if n == 0 {
    } else {
      LinesRender(t, hash, c, n - 1);
      if t.us[n - 1] {
        NewKey(t, hash, c, n - 1);
        ListsNext(Order(t, n - 1), Prefix(t, n - 1), t.ks[n - 1], t.vs[n - 1]);
        RendersNext(Lines(t, n - 1), Order(t, n - 1), c, t.ks[n - 1]);
      }
    }
  }

  /** The keys of the map, each once. */
  ghost predicate Lists(order: seq<string>, c: map<string, string>) {
    && |order| == |c|
    && (forall k :: k in c <==> k in order)
    && forall i, j :: 0 <= i < j < |order| ==> order[i] != order[j]
  }

  /** "key=value" for each of the keys. */
  ghost predicate Renders(a: seq<string>, order: seq<string>, c: map<string, string>) {
    |a| == |order| && forall j :: 0 <= j < |a| ==> order[j] in c && a[j] == order[j] + "=" + c[order[j]]
  }

  lemma ListsNext(order: seq<string>, c: map<string, string>, k: string, v: string)
    requires Lists(order, c) && k !in c
    ensures Lists(order + [k], c[k := v])
  {
    var d := c[k := v];
    SizeAfterPut(c, k, v);
  }

  lemma RendersNext(a: seq<string>, order: seq<string>, c: map<string, string>, k: string)
    requires Renders(a, order, c) && k in c
    ensures Renders(a + [k + "=" + c[k]], order + [k], c)
  {
  }

  lemma SizeAfterPut(c: map<string, string>, k: string, v: string)
    ensures |c[k := v]| == |c| + if k in c then 0 else 1
  {
    var d := c[k := v];
    if k in c {
      assert d.Keys == c.Keys;
      assert |d.Keys| == |d| && |c.Keys| == |c|;
    } else {
      assert d - {k} == c;
    }
  }

  /** The map after puts, one after the other. */
  function Puts(c: map<string, string>, ops: seq<(string, string)>): map<string, string> {
    if ops == [] then c else Puts(c, ops[..|ops| - 1])[ops[|ops| - 1].0 := ops[|ops| - 1].1]
  }

  /** After any puts a key has the value last put for it. */
  lemma {:induction false} LastPutWins(c: map<string, string>, ops: seq<(string, string)>, i: nat)
    requires i < |ops| && forall j :: i < j < |ops| ==> ops[j].0 != ops[i].0
    ensures ops[i].0 in Puts(c, ops) && Puts(c, ops)[ops[i].0] == ops[i].1
    decreases |ops|
  {
    var n := |ops| - 1;
    if i < n {
      assert ops[n].0 != ops[i].0;
      LastPutWins(c, ops[..n], i);
    }
  }

  /** A key never put is as before. */
  lemma {:induction false} OthersUnchanged(c: map<string, string>, ops: seq<(string, string)>, k: string)
    requires forall j :: 0 <= j < |ops| ==> ops[j].0 != k
    ensures k in Puts(c, ops) <==> k in c
    ensures k in c ==> Puts(c, ops)[k] == c[k]
    decreases |ops|
  {
    if ops == [] {
    } else {
      var n := |ops| - 1;
      assert ops[n].0 != k;
      OthersUnchanged(c, ops[..n], k);
    }
  }

  function Wrap(i: nat, cap: nat): (n: nat)
    requires i < cap
    ensures n == if i + 1 == cap then 0 else i + 1
  {
    WrapMod(i, cap);
    (i + 1) % cap
  }

  lemma WrapMod(i: nat, cap: nat)
    requires i < cap
    ensures (i + 1) % cap == if i + 1 == cap then 0 else i + 1
  {
  }

  lemma NewKey(t: Tab, hash: string -> nat, c: map<string, string>, i: nat)
    requires Represents(t, hash, c) && i < |t.us| && t.us[i]
    ensures t.ks[i] !in Prefix(t, i) && t.ks[i] in c && c[t.ks[i]] == t.vs[i] && t.hs[i] == hash(t.ks[i])
  {
    PrefixKeys(t, i, t.ks[i]);
    assert SlotOk(t, hash, c, i);
  }

  /** The next entry is new where the ones before it have been put, and there is room for it. */
  lemma NextEntry(t: Tab, hash: string -> nat, c: map<string, string>, i: nat, cap: nat)
    requires Represents(t, hash, c) && i < |t.us| && t.us[i] && |c| < cap
    ensures |Prefix(t, i)| < cap && t.ks[i] !in Prefix(t, i) && t.hs[i] == hash(t.ks[i])
    ensures Prefix(t, i + 1) == Prefix(t, i)[t.ks[i] := t.vs[i]]
  {
    RoomLeft(t, hash, c, i, cap);
    NewKey(t, hash, c, i);
  }

  lemma RoomLeft(t: Tab, hash: string -> nat, c: map<string, string>, i: nat, cap: nat)
    requires Represents(t, hash, c) && i < |t.us| && |c| < cap
    ensures |Prefix(t, i)| < cap
  {
    PrefixSize(t, i);
    CountPrefix(t.us, i);
  }
}
