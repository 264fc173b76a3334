/** Open addressing with linear probing, on values: what keeps every key findable. */
module ProbeTable {

  /** The four parallel arrays of env_map_t (src/util/env.h). */
  datatype Tab = Tab(us: seq<bool>, hs: seq<nat>, ks: seq<string>, vs: seq<string>)

  ghost predicate Shape(t: Tab) {
    |t.us| == |t.hs| == |t.ks| == |t.vs| > 0
  }

  function Home(h: nat, cap: nat): (i: nat)
    requires cap > 0
    ensures i < cap
  {
    h % cap
  }

  /** How many probes lead from slot a to slot b, going round. */
  function Dist(a: nat, b: nat, cap: nat): (d: nat)
    requires a < cap && b < cap
    ensures d < cap
  {
    if a <= b then b - a else b - a + cap
  }

  function Count(us: seq<bool>): (n: nat)
    ensures n <= |us|
  {
    if us == [] then 0 else Count(us[..|us| - 1]) + if us[|us| - 1] then 1 else 0
  }

  lemma {:induction false} CountSet(us: seq<bool>, i: nat)
    requires i < |us| && !us[i]
    ensures Count(us[i := true]) == Count(us) + 1
    decreases |us|
  {
    var n := |us| - 1;
    if i < n {
      CountSet(us[..n], i);
      assert us[i := true][..n] == us[..n][i := true];
    } else {
      assert us[i := true][..n] == us[..n];
    }
  }

  lemma {:induction false} CountNone(us: seq<bool>)
    requires forall i :: 0 <= i < |us| ==> !us[i]
    ensures Count(us) == 0
    decreases |us|
  {
    if us == [] {
    } else {
      CountNone(us[..|us| - 1]);
    }
  }

  lemma {:induction false} EmptySlot(us: seq<bool>) returns (e: nat)
    requires Count(us) < |us|
    ensures e < |us| && !us[e]
    decreases |us|
  {
    var n := |us| - 1;
    if us[n] { e := EmptySlot(us[..n]); } else { e := n; }
  }

  /** Every slot from home up to i, i excluded, is in use. */
  ghost predicate PathFull(us: seq<bool>, home: nat, i: nat)
    requires home < |us| && i < |us|
  {
    forall j: nat :: j < |us| && Dist(home, j, |us|) < Dist(home, i, |us|) ==> us[j]
  }

  ghost predicate Holds(t: Tab, k: string)
    requires Shape(t)
  {
    exists i: nat :: i < |t.us| && t.us[i] && t.ks[i] == k
  }

  /** A used slot holds its key's hash and value, and the key's walk leads to it. */
  ghost predicate SlotOk(t: Tab, hash: string -> nat, c: map<string, string>, i: nat)
    requires Shape(t) && i < |t.us|
  {
    t.us[i] ==>
      && t.hs[i] == hash(t.ks[i]) && t.ks[i] in c && c[t.ks[i]] == t.vs[i]
      && PathFull(t.us, Home(t.hs[i], |t.us|), i)
  }

  ghost predicate DistinctKeys(t: Tab)
    requires Shape(t)
  {
    forall i: nat, j: nat :: i < |t.us| && j < |t.us| && t.us[i] && t.us[j] && t.ks[i] == t.ks[j] ==> i == j
  }

  /** The table represents the map c: each key is in one slot, reachable from its home. */
  ghost predicate Represents(t: Tab, hash: string -> nat, c: map<string, string>) {
    && Shape(t)
    && (forall i: nat :: i < |t.us| ==> SlotOk(t, hash, c, i))
    && DistinctKeys(t)
    && (forall k :: k in c ==> Holds(t, k))
    && Count(t.us) == |c|
  }

  /** One probe further along, unless the walk has come round. */
  lemma NextProbe(home: nat, i: nat, e: nat, cap: nat)
    requires home < cap && i < cap && e < cap && Dist(home, i, cap) < Dist(home, e, cap)
    ensures var n := if i + 1 == cap then 0 else i + 1;
      Dist(home, n, cap) == Dist(home, i, cap) + 1
  {
  }

  /** A walk from home that has met neither an empty slot nor the key before slot i. */
  ghost predicate Walked(t: Tab, home: nat, k: string, i: nat)
    requires Shape(t) && home < |t.us| && i < |t.us|
  {
    forall j: nat :: j < |t.us| && Dist(home, j, |t.us|) < Dist(home, i, |t.us|) ==> t.us[j] && t.ks[j] != k
  }

  lemma WalkOn(t: Tab, home: nat, k: string, i: nat, e: nat)
    requires Shape(t) && home < |t.us| && i < |t.us| && e < |t.us| && !t.us[e]
    requires Walked(t, home, k, i) && t.us[i] && t.ks[i] != k
    ensures var n := if i + 1 == |t.us| then 0 else i + 1;
      Walked(t, home, k, n) && Dist(home, n, |t.us|) == Dist(home, i, |t.us|) + 1
  {
    NextProbe(home, i, e, |t.us|);
  }

  lemma FirstEmpty(us: seq<bool>, home: nat, i: nat, x: nat)
    requires home < |us| && i < |us| && x < |us| && PathFull(us, home, x) && !us[i]
    ensures Dist(home, x, |us|) < Dist(home, i, |us|) || x == i
  {
  }

  /** An empty slot at the end of the walk means that the key is not there. */
  lemma WalkMiss(t: Tab, hash: string -> nat, c: map<string, string>, k: string, home: nat, i: nat)
    requires Represents(t, hash, c) && home == Home(hash(k), |t.us|)
    requires i < |t.us| && !t.us[i] && Walked(t, home, k, i)
    ensures k !in c && PathFull(t.us, home, i)
  {
    if k in c {
      assert Holds(t, k);
      var x: nat :| x < |t.us| && t.us[x] && t.ks[x] == k;
      assert SlotOk(t, hash, c, x);
      FirstEmpty(t.us, home, i, x);
    }
  }

  lemma PathGrows(us: seq<bool>, home: nat, i: nat, j: nat)
    requires home < |us| && i < |us| && j < |us| && PathFull(us, home, i)
    ensures PathFull(us[j := true], home, i)
  {
  }

  lemma HeldAfter(t: Tab, n: Tab, k: string)
    requires Shape(t) && Shape(n) && |n.us| == |t.us| && Holds(t, k)
    requires forall i: nat :: i < |t.us| && t.us[i] ==> n.us[i] && n.ks[i] == t.ks[i]
    ensures Holds(n, k)
  {
    var x: nat :| x < |t.us| && t.us[x] && t.ks[x] == k;
    assert n.us[x] && n.ks[x] == k;
  }

  /** What inserting k does to the table, and what that needs. */
  ghost predicate Inserted(t: Tab, n: Tab, hash: string -> nat, c: map<string, string>, k: string, v: string, i: nat) {
    && Represents(t, hash, c) && k !in c && i < |t.us| && !t.us[i]
    && PathFull(t.us, Home(hash(k), |t.us|), i)
    && n == Tab(t.us[i := true], t.hs[i := hash(k)], t.ks[i := k], t.vs[i := v])
  }

  lemma InsertSlot(t: Tab, n: Tab, hash: string -> nat, c: map<string, string>, c': map<string, string>,
                   k: string, v: string, i: nat, j: nat)
    requires Inserted(t, n, hash, c, k, v, i) && c' == c[k := v] && j < |n.us|
    ensures SlotOk(n, hash, c', j)
  {
    assert SlotOk(t, hash, c, j);
    if j == i {
      PathGrows(t.us, Home(hash(k), |t.us|), i, i);
    } else if t.us[j] {
      PathGrows(t.us, Home(t.hs[j], |t.us|), j, i);
    }
  }

  lemma InsertDistinct(t: Tab, n: Tab, hash: string -> nat, c: map<string, string>, k: string, v: string, i: nat)
    requires Inserted(t, n, hash, c, k, v, i)
    ensures DistinctKeys(n)
  {
    forall j: nat | j < |t.us| && t.us[j] ensures t.ks[j] != k {
      assert SlotOk(t, hash, c, j);
    }
  }

  lemma InsertHolds(t: Tab, n: Tab, hash: string -> nat, c: map<string, string>,
                    k: string, v: string, i: nat, k': string)
    requires Inserted(t, n, hash, c, k, v, i) && (k' == k || k' in c)
    ensures Holds(n, k')
  {
    if k' == k {
      assert n.us[i] && n.ks[i] == k;
    } else {
      HeldAfter(t, n, k');
    }
  }

  /** A key put into the first empty slot of its walk. */
  lemma Insert(t: Tab, n: Tab, hash: string -> nat, c: map<string, string>, k: string, v: string, i: nat)
    requires Inserted(t, n, hash, c, k, v, i)
    ensures Represents(n, hash, c[k := v])
  {
    var c' := c[k := v];
    CountSet(t.us, i);
    forall j: nat | j < |n.us| ensures SlotOk(n, hash, c', j) {
      InsertSlot(t, n, hash, c, c', k, v, i, j);
    }
    InsertDistinct(t, n, hash, c, k, v, i);
    forall k' | k' in c' ensures Holds(n, k') {
      InsertHolds(t, n, hash, c, k, v, i, k');
    }
  }

  /** The value of a key that is there replaced. */
  lemma Replace(t: Tab, n: Tab, hash: string -> nat, c: map<string, string>, k: string, v: string, i: nat)
    requires Represents(t, hash, c) && i < |t.us| && t.us[i] && t.ks[i] == k
    requires n == t.(vs := t.vs[i := v])
    ensures k in c && Represents(n, hash, c[k := v])
  {
    var c' := c[k := v];
    assert SlotOk(t, hash, c, i);
    forall j: nat | j < |n.us| ensures SlotOk(n, hash, c', j) {
      assert SlotOk(t, hash, c, j);
    }
    forall k' | k' in c' ensures Holds(n, k') {
      HeldAfter(t, n, k');
    }
  }

  /** The keys and values of the first n slots. */
  function Prefix(t: Tab, n: nat): (c: map<string, string>)
    requires |t.us| == |t.hs| == |t.ks| == |t.vs| && n <= |t.us|
  {
    if n == 0 then map[]
    else if t.us[n - 1] then Prefix(t, n - 1)[t.ks[n - 1] := t.vs[n - 1]]
    else Prefix(t, n - 1)
  }

  lemma {:induction false} PrefixKeys(t: Tab, n: nat, k: string)
    requires Shape(t) && n <= |t.us|
    ensures k in Prefix(t, n) <==> exists i: nat :: i < n && t.us[i] && t.ks[i] == k
  {
    if n == 0 {
    } else {
      PrefixKeys(t, n - 1, k);
    }
  }

  lemma {:induction false} PrefixSize(t: Tab, n: nat)
    requires Shape(t) && n <= |t.us| && DistinctKeys(t)
    ensures |Prefix(t, n)| == Count(t.us[..n])
  {
    if n == 0 {
    } else {
      PrefixSize(t, n - 1);
      PrefixKeys(t, n - 1, t.ks[n - 1]);
      assert t.us[..n][..n - 1] == t.us[..n - 1];
    }
  }

  lemma {:induction false} CountPrefix(us: seq<bool>, n: nat)
    requires n <= |us|
    ensures Count(us[..n]) <= Count(us)
    decreases |us|
  {
    if n < |us| {
      CountPrefix(us[..|us| - 1], n);
      assert us[..|us| - 1][..n] == us[..n];
    } else {
      assert us[..n] == us;
    }
  }

  lemma {:induction false} PrefixValue(t: Tab, hash: string -> nat, c: map<string, string>, n: nat, k: string)
    requires Represents(t, hash, c) && n <= |t.us| && k in Prefix(t, n)
    ensures k in c && Prefix(t, n)[k] == c[k]
  {
    if n > 0 && (!t.us[n - 1] || t.ks[n - 1] != k) {
      PrefixValue(t, hash, c, n - 1, k);
    } else if n > 0 {
      assert SlotOk(t, hash, c, n - 1);
    }
  }

  /** The whole table's keys and values are the map. */
  lemma PrefixAll(t: Tab, hash: string -> nat, c: map<string, string>)
    requires Represents(t, hash, c)
    ensures Prefix(t, |t.us|) == c
  {
    var p := Prefix(t, |t.us|);
    forall k | k in c ensures k in p {
      assert Holds(t, k);
      PrefixKeys(t, |t.us|, k);
    }
    forall k | k in p ensures k in c && p[k] == c[k] {
      PrefixValue(t, hash, c, |t.us|, k);
    }
  }
}
