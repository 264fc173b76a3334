/** Where the ext4 generator puts things (src/ext4/util.c, src/ext4/util.h, src/ext4/ext4.c):
    which groups have superblock copies, and the blocks of every metadata structure. */
module Ext4Layout {
  import opened Arith

  // ------------------------------------------------------ superblock copies

  function Pow(b: nat, k: nat): nat {
    if k == 0 then 1 else b * Pow(b, k - 1)
  }

  ghost predicate IsPowerOf(n: nat, b: nat) {
    exists k: nat :: n == Pow(b, k)
  }

  lemma PowStep(n: nat, b: nat)
    requires b >= 2 && n >= 1 && n % b == 0
    ensures IsPowerOf(n, b) <==> IsPowerOf(n / b, b)
    ensures 1 <= n / b < n
  {
    var q := n / b;
    assert n == b * q;
    Shrinks(b, q);
    if IsPowerOf(n, b) {
      var k: nat :| n == Pow(b, k);
      assert k > 0;
      Cancel(b, q, Pow(b, k - 1));
      assert q == Pow(b, k - 1);
    }
    if IsPowerOf(q, b) {
      var k: nat :| q == Pow(b, k);
      assert n == Pow(b, k + 1);
    }
  }

  lemma {:induction false} PowIndivisible(b: nat, n: nat)
    requires b >= 2 && n >= 1 && n % b != 0
    ensures IsPowerOf(n, b) <==> n == 1
  {
    assert Pow(b, 0) == 1;
    if IsPowerOf(n, b) {
      var k: nat :| n == Pow(b, k);
      if k > 0 { Multiple(b, Pow(b, k - 1)); }
    }
  }

  /** Divides the base out while it goes (is_power). */
  method IsPower(n: nat, b: nat) returns (r: bool)
    requires b >= 2
    ensures r <==> n != 0 && IsPowerOf(n, b)
  {
    if n == 0 {
      return false;
    }
    var m := n;
    while m % b == 0
      invariant m >= 1 && (IsPowerOf(n, b) <==> IsPowerOf(m, b))
      decreases m
    {
      PowStep(m, b);
      m := m / b;
    }
    PowIndivisible(b, m);
    return m == 1;
  }

  /** The groups with a copy: 0, 1 and the powers of 3, 5 and 7. */
  ghost predicate Sparse(g: nat) {
    g <= 1 || IsPowerOf(g, 3) || IsPowerOf(g, 5) || IsPowerOf(g, 7)
  }

  lemma {:induction false} OddPower(b: nat, k: nat)
    requires b % 2 == 1
    ensures Pow(b, k) % 2 == 1
  {
    if k == 0 {
    } else {
      OddPower(b, k - 1);
      OddProduct(b, Pow(b, k - 1));
    }
  }

  lemma OddProduct(x: nat, y: nat)
    requires x % 2 == 1 && y % 2 == 1
    ensures (x * y) % 2 == 1
  {
    var a, c := x / 2, y / 2;
    assert x * y == 2 * (2 * (a * c) + a + c) + 1;
  }

  /** Only odd groups beyond 0 have copies, so the oddness test loses none. */
  lemma SparseIsOdd(g: nat)
    requires Sparse(g) && g >= 1
    ensures g % 2 == 1
  {
    if IsPowerOf(g, 3) {
      var k: nat :| g == Pow(3, k);
      OddPower(3, k);
    } else if IsPowerOf(g, 5) {
      var k: nat :| g == Pow(5, k);
      OddPower(5, k);
    } else if IsPowerOf(g, 7) {
      var k: nat :| g == Pow(7, k);
      OddPower(7, k);
    }
  }

  lemma {:induction false} PowGrows(b: nat, j: nat, k: nat)
    requires b >= 1 && j <= k
    ensures 1 <= Pow(b, j) <= Pow(b, k)
    decreases k
  {
    if k == 0 {
    } else if j == k {
      PowGrows(b, k - 1, k - 1);
      MulMonotone(1, b, Pow(b, k - 1));
    } else {
      PowGrows(b, j, k - 1);
      MulMonotone(1, b, Pow(b, k - 1));
    }
  }

  lemma FewPowers()
    ensures Pow(3, 0) == 1 && Pow(3, 1) == 3 && Pow(3, 2) == 9 && Pow(3, 3) == 27 && Pow(3, 4) == 81
    ensures Pow(5, 0) == 1 && Pow(5, 1) == 5 && Pow(5, 2) == 25 && Pow(5, 3) == 125
    ensures Pow(7, 0) == 1 && Pow(7, 1) == 7 && Pow(7, 2) == 49 && Pow(7, 3) == 343
  {
  }

  /** Among the generator's 80 groups those are nine. */
  lemma HeaderCopies(g: nat)
    requires g < 80
    ensures Sparse(g) <==> g in {0, 1, 3, 5, 7, 9, 25, 27, 49}
  {
    FewPowers();
    if IsPowerOf(g, 3) {
      var k: nat :| g == Pow(3, k);
      if k >= 4 { PowGrows(3, 4, k); }
    }
    if IsPowerOf(g, 5) {
      var k: nat :| g == Pow(5, k);
      if k >= 3 { PowGrows(5, 3, k); }
    }
    if IsPowerOf(g, 7) {
      var k: nat :| g == Pow(7, k);
      if k >= 3 { PowGrows(7, 3, k); }
    }
  }

  method HasSuper(g: nat) returns (r: bool)
    ensures r <==> Sparse(g)
  {
    if g <= 1 {
      return true;
    }
    if g % 2 == 0 {
      if Sparse(g) { SparseIsOdd(g); }
      return false;
    }
    r := IsPower(g, 3);
    if r {
      return true;
    }
    r := IsPower(g, 5);
    if r {
      return true;
    }
    r := IsPower(g, 7);
  }

  // ---------------------------------------------------------------- geometry

  /** The constants of util.h as parameters: groups, groups per flex group, blocks per group,
      inode-table blocks per group, reserved GDT blocks. */
  datatype Geo = Geo(groups: nat, flex: nat, bpg: nat, itb: nat, resv: nat)

  /** The values the generator is built with. */
  const HEADER := Geo(80, 16, 32768, 128, 1024)

  /** Superblock, two GDT blocks and the reserved GDT blocks (RESV_GDT_BLKS). */
  function CopyLen(q: Geo): nat {
    3 + q.resv
  }

  /** Bitmaps and inode tables of one flex group (FLEX_META). */
  function FlexMeta(q: Geo): nat {
    2 * q.flex + q.flex * q.itb
  }

  function FlexFirst(q: Geo, g: nat): (f: nat)
    requires q.flex > 0
    ensures f <= g < f + q.flex
  {
    var r := g % q.flex;
    assert g / q.flex * q.flex == g - r;
    g / q.flex * q.flex
  }

  /** There are groups, and one has room for everything that is placed in the first of them. */
  predicate Roomy(q: Geo) {
    q.groups >= 1 && q.flex >= 1 && CopyLen(q) + FlexMeta(q) + 2 <= q.bpg
  }

  /** No copy but the first is in a group where a flex group starts. */
  ghost predicate CopiesOff(q: Geo)
    requires q.flex > 0
  {
    forall g: nat :: 0 < g < q.groups && Sparse(g) ==> g != FlexFirst(q, g)
  }

  ghost predicate Wf(q: Geo) {
    Roomy(q) && CopiesOff(q)
  }

  /** Flex groups of an even number of groups will do. */
  lemma EvenFlex(q: Geo)
    requires q.flex > 0 && q.flex % 2 == 0
    ensures CopiesOff(q)
  {
    forall g: nat | 0 < g < q.groups && Sparse(g) ensures g != FlexFirst(q, g) {
      SparseIsOdd(g);
      FirstIsEven(q, g);
    }
  }

  lemma FirstIsEven(q: Geo, g: nat)
    requires q.flex > 0 && q.flex % 2 == 0
    ensures FlexFirst(q, g) % 2 == 0
  {
    var d, h := g / q.flex, q.flex / 2;
    assert d * q.flex == 2 * (d * h);
  }

  lemma HeaderWf()
    ensures Wf(HEADER) && FlexMeta(HEADER) == 2080 && CopyLen(HEADER) == 1027
  {
    EvenFlex(HEADER);
  }

  function FlexBase(q: Geo, g: nat): nat
    requires q.flex > 0
  {
    FlexFirst(q, g) * q.bpg
  }

  /** Where the metadata of g's flex group starts: behind group 0's copy, else at the boundary. */
  function MetaBase(q: Geo, g: nat): nat
    requires q.flex > 0
  {
    if FlexFirst(q, g) == 0 then CopyLen(q) else FlexBase(q, g)
  }

  function BlockBitmap(q: Geo, g: nat): nat
    requires q.flex > 0
  {
    MetaBase(q, g) + (g - FlexFirst(q, g))
  }

  function InodeBitmap(q: Geo, g: nat): nat
    requires q.flex > 0
  {
    MetaBase(q, g) + q.flex + (g - FlexFirst(q, g))
  }

  function InodeTable(q: Geo, g: nat): nat
    requires q.flex > 0
  {
    MetaBase(q, g) + 2 * q.flex + (g - FlexFirst(q, g)) * q.itb
  }

  // --------------------------------------------------------------- ownership

  /** What a block can be used for. */
  datatype Use =
    | Bitmap(g: nat) | Inodes(g: nat) | Table(g: nat)
    | Copy(g: nat)          // superblock, GDT, reserved GDT of group g
    | RootDir | Dindir
    | Journal(jg: nat, off: nat, len: nat)  // in group jg, from that offset on

  /** Blocks in use at the front of a group, before any journal. */
  ghost function MetaLen(q: Geo, g: nat): nat
    requires q.flex > 0
  {
    if g == 0 then CopyLen(q) + FlexMeta(q) + 2
    else if g == FlexFirst(q, g) then FlexMeta(q)
    else if Sparse(g) then CopyLen(q)
    else 0
  }

  ghost predicate Exists(q: Geo, u: Use)
    requires q.flex > 0
  {
    match u
    case Bitmap(g) => g < q.groups
    case Inodes(g) => g < q.groups
    case Table(g) => g < q.groups
    case Copy(g) => g < q.groups && Sparse(g)
    case RootDir => true
    case Dindir => true
    case Journal(jg, off, len) => jg < q.groups && MetaLen(q, jg) <= off && off + len <= q.bpg
  }

  /** The group and the range of offsets in it that a use occupies. */
  ghost function Place(q: Geo, u: Use): (nat, nat, nat)
    requires q.flex > 0
  {
    match u
    case Bitmap(g) => InGroup(q, g, g - FlexFirst(q, g), 1)
    case Inodes(g) => InGroup(q, g, q.flex + (g - FlexFirst(q, g)), 1)
    case Table(g) => InGroup(q, g, 2 * q.flex + (g - FlexFirst(q, g)) * q.itb, q.itb)
    case Copy(g) => (g, 0, CopyLen(q))
    case RootDir => (0, CopyLen(q) + FlexMeta(q), 1)
    case Dindir => (0, CopyLen(q) + FlexMeta(q) + 1, 1)
    case Journal(jg, off, len) => (jg, off, len)
  }

  function InGroup(q: Geo, g: nat, off: nat, len: nat): (nat, nat, nat)
    requires q.flex > 0
  {
    var f := FlexFirst(q, g);
    (f, (if f == 0 then CopyLen(q) else 0) + off, len)
  }

  /** The blocks of a use, from the addresses the code computes. */
  ghost predicate Owns(q: Geo, u: Use, b: nat)
    requires q.flex > 0
  {
    match u
    case Bitmap(g) => b == BlockBitmap(q, g)
    case Inodes(g) => b == InodeBitmap(q, g)
    case Table(g) => InodeTable(q, g) <= b < InodeTable(q, g) + q.itb
    case Copy(g) => g * q.bpg <= b < g * q.bpg + CopyLen(q)
    case RootDir => b == CopyLen(q) + FlexMeta(q)
    case Dindir => b == CopyLen(q) + FlexMeta(q) + 1
    case Journal(jg, off, len) => jg * q.bpg + off <= b < jg * q.bpg + off + len
  }

  lemma OwnsPlace(q: Geo, u: Use, b: nat)
    requires q.flex > 0
    ensures var (g, lo, len) := Place(q, u);
      Owns(q, u, b) <==> g * q.bpg + lo <= b < g * q.bpg + lo + len
  {
  }

  /** Everything lies within one group: metadata in the first of its flex group. */
  lemma InsideGroup(q: Geo, u: Use)
    requires Wf(q) && Exists(q, u)
    ensures var (g, lo, len) := Place(q, u); lo + len <= q.bpg && g < q.groups
    ensures u.Bitmap? || u.Inodes? || u.Table? ==> Place(q, u).0 == FlexFirst(q, u.g)
  {
    if u.Table? { MulApart(u.g - FlexFirst(q, u.g), q.flex, q.itb); }
  }

  /** The order of the kinds within a group. */
  function Rank(u: Use): (k: nat)
    ensures k <= 6
  {
    match u case Copy(_) => 0 case Bitmap(_) => 1 case Inodes(_) => 2 case Table(_) => 3
            case RootDir => 4 case Dindir => 5 case Journal(_, _, _) => 6
  }

  /** Where in group g the part for the kind of that rank starts, and the one before it ends. */
  ghost function Edge(q: Geo, g: nat, k: nat): nat
    requires q.flex > 0
  {
    if k == 0 then 0
    else if g == FlexFirst(q, g) then
      var s := if g == 0 then CopyLen(q) else 0;
      if k == 1 then s
      else if k == 2 then s + q.flex
      else if k == 3 then s + 2 * q.flex
      else if k == 4 || g != 0 then s + FlexMeta(q)
      else if k == 5 then s + FlexMeta(q) + 1
      else s + FlexMeta(q) + 2
    else MetaLen(q, g)
  }

  lemma EdgesRise(q: Geo, g: nat, j: nat, k: nat)
    requires Wf(q) && j <= k <= 6
    ensures Edge(q, g, j) <= Edge(q, g, k)
  {
  }

  /** Each use lies in the part for its kind. */
  ghost predicate InPart(q: Geo, u: Use)
    requires q.flex > 0
  {
    var (g, a, m) := Place(q, u);
    Edge(q, g, Rank(u)) <= a && (u.Journal? || a + m <= Edge(q, g, Rank(u) + 1))
  }

  lemma KindsApart(q: Geo, u: Use, v: Use)
    requires Wf(q) && InPart(q, u) && InPart(q, v) && Rank(u) < Rank(v) && Place(q, u).0 == Place(q, v).0
    ensures Place(q, u).1 + Place(q, u).2 <= Place(q, v).1
  {
    EdgesRise(q, Place(q, u).0, Rank(u) + 1, Rank(v));
  }

  /** Uses of one kind, in the order of their groups. */
  lemma SameKindApart(q: Geo, u: Use, v: Use)
    requires Wf(q) && Rank(u) == Rank(v) && u != v && !u.Journal? && Place(q, u).0 == Place(q, v).0
    ensures (u.Bitmap? || u.Inodes? || u.Table?) && u.g != v.g
    ensures u.g < v.g ==> Place(q, u).1 + Place(q, u).2 <= Place(q, v).1
  {
    if u.Table? && u.g < v.g {
      MulApart(u.g - FlexFirst(q, u.g), v.g - FlexFirst(q, v.g), q.itb);
    }
  }

  /** In one group, the ranges of two uses do not meet. */
  lemma RangesApart(q: Geo, u: Use, v: Use)
    requires Wf(q) && Exists(q, u) && Exists(q, v) && u != v && !(u.Journal? && v.Journal?)
    requires Place(q, u).0 == Place(q, v).0
    ensures var (_, a, m) := Place(q, u);
      var (_, b, n) := Place(q, v);
      a + m <= b || b + n <= a
  {
    Fits(q, u);
    Fits(q, v);
    if Rank(u) < Rank(v) {
      KindsApart(q, u, v);
    } else if Rank(v) < Rank(u) {
      KindsApart(q, v, u);
    } else {
      SameKindApart(q, u, v);
      SameKindApart(q, v, u);
    }
  }

  lemma Fits(q: Geo, u: Use)
    requires Wf(q) && Exists(q, u)
    ensures InPart(q, u)
  {
    match u
    case Bitmap(g) => FirstOfFirst(q, g, FlexFirst(q, g));
    case Inodes(g) => FirstOfFirst(q, g, FlexFirst(q, g));
    case Table(g) => TableFits(q, g, FlexFirst(q, g), g - FlexFirst(q, g));
    case _ =>
  }

  lemma TableFits(q: Geo, g: nat, f: nat, d: nat)
    requires Wf(q) && f == FlexFirst(q, g) && d == g - f
    ensures InPart(q, Table(g))
  {
    FirstOfFirst(q, g, f);
    MulApart(d, q.flex, q.itb);
  }

  lemma FirstOfFirst(q: Geo, g: nat, f: nat)
    requires q.flex > 0 && f == FlexFirst(q, g)
    ensures FlexFirst(q, f) == f
  {
    Multiple(q.flex, g / q.flex);
  }

  /** The layout is disjoint: no block belongs to two different structures, whatever the number of
      groups, flex size, group size, table size, reservation, and place of the journal. */
  lemma LayoutDisjoint(q: Geo, u: Use, v: Use, b: nat)
    requires Wf(q) && Exists(q, u) && Exists(q, v) && u != v && !(u.Journal? && v.Journal?)
    requires Owns(q, u, b)
    ensures !Owns(q, v, b)
  {
    OwnsPlace(q, u, b);
    OwnsPlace(q, v, b);
    InsideGroup(q, u);
    InsideGroup(q, v);
    var (g, _, _) := Place(q, u);
    var (h, _, _) := Place(q, v);
    if g == h {
      RangesApart(q, u, v);
    } else if g < h {
      MulApart(g, h, q.bpg);
    } else {
      MulApart(h, g, q.bpg);
    }
  }

  /** Where a flex group starts in a group with a copy, the copy and the bitmap meet. */
  lemma CopyMeetsBitmap(q: Geo, g: nat)
    requires Roomy(q) && 0 < g < q.groups && Sparse(g) && g == FlexFirst(q, g)
    ensures Exists(q, Copy(g)) && Exists(q, Bitmap(g))
    ensures Owns(q, Copy(g), g * q.bpg) && Owns(q, Bitmap(g), g * q.bpg)
  {
  }

  ghost predicate Disjoint(q: Geo)
    requires q.flex > 0
  {
    forall u, v, b :: Exists(q, u) && Exists(q, v) && u != v && !(u.Journal? && v.Journal?) && Owns(q, u, b) ==>
      !Owns(q, v, b)
  }

  /** The layout is disjoint exactly when no copy but the first is where a flex group starts. */
  lemma DisjointIffCopiesOff(q: Geo)
    requires Roomy(q)
    ensures Disjoint(q) <==> CopiesOff(q)
  {
    if CopiesOff(q) {
      forall u, v, b | Exists(q, u) && Exists(q, v) && u != v && !(u.Journal? && v.Journal?) && Owns(q, u, b)
        ensures !Owns(q, v, b)
      {
        LayoutDisjoint(q, u, v, b);
      }
    } else {
      var g: nat :| 0 < g < q.groups && Sparse(g) && g == FlexFirst(q, g);
      CopyMeetsBitmap(q, g);
    }
  }

  // --------------------------------------------------- what the front is used for

  /** A block of group g that belongs to some structure other than the journal. */
  ghost predicate OwnedIn(q: Geo, g: nat, b: nat)
    requires q.flex > 0
  {
    exists u: Use :: !u.Journal? && Exists(q, u) && Owns(q, u, g * q.bpg + b)
  }

  /** A structure's block of group g is in its place there. */
  lemma OwnedAt(q: Geo, u: Use, g: nat, b: nat)
    requires Wf(q) && Exists(q, u) && b < q.bpg && Owns(q, u, g * q.bpg + b)
    ensures var (h, lo, len) := Place(q, u); h == g && lo <= b < lo + len
  {
    OwnsPlace(q, u, g * q.bpg + b);
    InsideGroup(q, u);
    var (h, lo, len) := Place(q, u);
    if h < g { MulApart(h, g, q.bpg); }
    if g < h { MulApart(g, h, q.bpg); }
  }

  /** What is owned in a group is at its front. */
  lemma OwnedIsFront(q: Geo, u: Use, g: nat, b: nat)
    requires Wf(q) && Exists(q, u) && !u.Journal? && b < q.bpg && Owns(q, u, g * q.bpg + b)
    ensures b < MetaLen(q, g)
  {
    OwnedAt(q, u, g, b);
    Fits(q, u);
    EdgesRise(q, g, Rank(u) + 1, 6);
  }

  lemma InFlexGroup(q: Geo, f: nat, d: nat)
    requires q.flex > 0 && f == FlexFirst(q, f) && d < q.flex
    ensures FlexFirst(q, f + d) == f
  {
    assert f == q.flex * (f / q.flex);
    DivMod(d, f / q.flex, q.flex);
  }

  /** The metadata part of a complete flex group is used up. */
  lemma MetaOwner(q: Geo, f: nat, o: nat) returns (u: Use)
    requires Wf(q) && f == FlexFirst(q, f) && f + q.flex <= q.groups && o < FlexMeta(q)
    ensures !u.Journal? && Exists(q, u) && Owns(q, u, MetaBase(q, f) + o)
  {
    if o < q.flex {
      u := Bitmap(f + o);
      InFlexGroup(q, f, o);
    } else if o < 2 * q.flex {
      u := Inodes(f + (o - q.flex));
      InFlexGroup(q, f, o - q.flex);
    } else {
      u := TableOwner(q, f, o - 2 * q.flex);
    }
  }

  lemma TableOwner(q: Geo, f: nat, t: nat) returns (u: Use)
    requires Wf(q) && f == FlexFirst(q, f) && f + q.flex <= q.groups && t < q.flex * q.itb
    ensures u.Table? && Exists(q, u) && Owns(q, u, MetaBase(q, f) + 2 * q.flex + t)
  {
    var d := t / q.itb;
    assert t == d * q.itb + t % q.itb;
    if d >= q.flex { MulMonotone(q.flex, d, q.itb); }
    u := Table(f + d);
    InFlexGroup(q, f, d);
  }

  /** So every block at the front of a group is some structure's. */
  lemma FrontOwner(q: Geo, g: nat, b: nat) returns (u: Use)
    requires Wf(q) && g < q.groups && b < MetaLen(q, g) && (g == FlexFirst(q, g) ==> g + q.flex <= q.groups)
    ensures !u.Journal? && Exists(q, u) && Owns(q, u, g * q.bpg + b)
  {
    if g != FlexFirst(q, g) || (g == 0 && b < CopyLen(q)) {
      u := Copy(g);
    } else if g == 0 && b >= CopyLen(q) + FlexMeta(q) {
      u := if b == CopyLen(q) + FlexMeta(q) then RootDir else Dindir;
    } else {
      u := MetaOwner(q, g, if g == 0 then b - CopyLen(q) else b);
    }
  }

  /** A group that does not exist has left its bitmap's place free. */
  lemma NobodysBlock(q: Geo, g: nat, b: nat)
    requires Wf(q) && g == FlexFirst(q, g) < q.groups < g + q.flex
    requires b == (if g == 0 then CopyLen(q) else 0) + (q.flex - 1)
    ensures b < MetaLen(q, g) && b < q.bpg && !OwnedIn(q, g, b)
  {
    forall u: Use | !u.Journal? && Exists(q, u) ensures !Owns(q, u, g * q.bpg + b) { NotOwner(q, u, g, b); }
  }

  lemma NotOwner(q: Geo, u: Use, g: nat, b: nat)
    requires Wf(q) && g == FlexFirst(q, g) < q.groups < g + q.flex && !u.Journal? && Exists(q, u) && b < q.bpg
    requires b == (if g == 0 then CopyLen(q) else 0) + (q.flex - 1)
    ensures !Owns(q, u, g * q.bpg + b)
  {
    if Owns(q, u, g * q.bpg + b) {
      OwnedAt(q, u, g, b);
      NotThere(q, u, g, b);
    }
  }

  lemma NotThere(q: Geo, u: Use, g: nat, b: nat)
    requires Wf(q) && g == FlexFirst(q, g) < q.groups < g + q.flex && !u.Journal? && Exists(q, u)
    requires b == (if g == 0 then CopyLen(q) else 0) + (q.flex - 1) && Place(q, u).0 == g
    ensures !(Place(q, u).1 <= b < Place(q, u).1 + Place(q, u).2)
  {
    match u
    case Copy(_) =>
    case Bitmap(h) => assert h < g + q.flex - 1;
    case _ => Fits(q, u);
  }

  /** The group does not start an incomplete flex group. */
  predicate Complete(q: Geo, g: nat)
    requires q.flex > 0
  {
    g == FlexFirst(q, g) ==> g + q.flex <= q.groups
  }

  lemma UsedUp(q: Geo, g: nat, b: nat)
    requires Wf(q) && g < q.groups && b < q.bpg && Complete(q, g)
    ensures b < MetaLen(q, g) <==> OwnedIn(q, g, b)
  {
    if b < MetaLen(q, g) { var u := FrontOwner(q, g, b); }
    if OwnedIn(q, g, b) {
      var u: Use :| !u.Journal? && Exists(q, u) && Owns(q, u, g * q.bpg + b);
      OwnedIsFront(q, u, g, b);
    }
  }

  /** All blocks that a group counts as used belong to some structure, and no others do. */
  ghost predicate FrontOwned(q: Geo, g: nat)
    requires q.flex > 0
  {
    forall b: nat :: b < q.bpg ==> (b < MetaLen(q, g) <==> OwnedIn(q, g, b))
  }

  /** That is so in every group but one that starts an incomplete flex group: there, the blocks kept
      for groups that do not exist are counted too. */
  lemma FrontIsOwned(q: Geo, g: nat)
    requires Wf(q) && g < q.groups
    ensures FrontOwned(q, g) <==> Complete(q, g)
  {
    if Complete(q, g) {
      forall b: nat | b < q.bpg ensures b < MetaLen(q, g) <==> OwnedIn(q, g, b) { UsedUp(q, g, b); }
    } else {
      NobodysBlock(q, g, (if g == 0 then CopyLen(q) else 0) + (q.flex - 1));
    }
  }

  /** Some places in the generator's image: the bitmaps and the table of group 0, those of group 17,
      which is the second of its flex group, and the root directory. */
  lemma HeaderPlaces()
    ensures BlockBitmap(HEADER, 0) == 1027 && InodeBitmap(HEADER, 0) == 1043 && InodeTable(HEADER, 0) == 1059
    ensures BlockBitmap(HEADER, 17) == 524289 && InodeBitmap(HEADER, 17) == 524305
    ensures InodeTable(HEADER, 17) == 524448 && CopyLen(HEADER) + FlexMeta(HEADER) == 3107
  {
    HeaderWf();
  }

  /** The generator puts the journal behind the metadata of the last flex group. That is a free
      place exactly when there is a second flex group and the journal fits into the group. */
  lemma GeneratorJournal(q: Geo, len: nat)
    requires Wf(q)
    ensures Exists(q, Journal(FlexFirst(q, q.groups - 1), FlexMeta(q), len))
      <==> q.groups > q.flex && FlexMeta(q) + len <= q.bpg
  {
    FirstOfFirst(q, q.groups - 1, FlexFirst(q, q.groups - 1));
    FirstZero(q, q.groups - 1);
  }

  lemma FirstZero(q: Geo, g: nat)
    requires q.flex > 0
    ensures FlexFirst(q, g) == 0 <==> g < q.flex
  {
    var d := g / q.flex;
    if g < q.flex {
      assert d == 0;
    }
  }
}
