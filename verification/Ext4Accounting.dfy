/** Block accounting: the bitmaps, the group descriptors and the superblock count the same blocks
    in three separate ways (src/ext4/ext4.c, src/ext4/sb.c). */
module Ext4Accounting {
  import opened Arith
  import opened Ext4Layout

  // ------------------------------------------------------------- bitmap bits

  function Mask(i: nat): bv8
    requires i < 8
  {
    match i case 0 => 0x01 case 1 => 0x02 case 2 => 0x04 case 3 => 0x08
            case 4 => 0x10 case 5 => 0x20 case 6 => 0x40 case 7 => 0x80
  }

  lemma MaskOr(x: bv8, i: nat, j: nat)
    requires i < 8 && j < 8
    ensures (x | Mask(i)) & Mask(j) != 0 <==> i == j || x & Mask(j) != 0
  {
  }

  predicate IsSet(bm: seq<bv8>, b: nat)
    requires b < 8 * |bm|
  {
    bm[b / 8] & Mask(b % 8) != 0
  }

  method MarkBit(bm: array<bv8>, b: nat)
    requires b < 8 * bm.Length
    modifies bm
    ensures forall c: nat :: c < 8 * bm.Length ==> (IsSet(bm[..], c) <==> c == b || IsSet(old(bm[..]), c))
  {
    bm[b / 8] := bm[b / 8] | Mask(b % 8);
    forall c: nat | c < 8 * bm.Length ensures IsSet(bm[..], c) <==> c == b || IsSet(old(bm[..]), c) {
      MaskOr(old(bm[b / 8]), b % 8, c % 8);
      assert c / 8 == b / 8 && c % 8 == b % 8 ==> c == b;
    }
  }

  /** Marks the bits from lo up to hi: the loops of bb_mark_group0, _flex, _meta and _journal. */
  method MarkRange(bm: array<bv8>, lo: nat, hi: nat)
    requires lo <= hi <= 8 * bm.Length
    modifies bm
    ensures forall c: nat :: c < 8 * bm.Length ==> (IsSet(bm[..], c) <==> lo <= c < hi || IsSet(old(bm[..]), c))
  {
    for b := lo to hi
      invariant forall c: nat :: c < 8 * bm.Length ==> (IsSet(bm[..], c) <==> lo <= c < b || IsSet(old(bm[..]), c))
    {
      MarkBit(bm, b);
    }
  }

  /** The blocks of group g in use when the journal is in group jg. */
  ghost predicate InUse(q: Geo, g: nat, jg: nat, off: nat, len: nat, b: nat)
    requires q.flex > 0
  {
    b < MetaLen(q, g) || (g == jg && off <= b < off + len)
  }

  /** The blocks in use are those of the structures and the journal's, where flex groups are
      complete. */
  lemma InUseIsOwned(q: Geo, g: nat, jg: nat, off: nat, len: nat, b: nat)
    requires Wf(q) && Exists(q, Journal(jg, off, len)) && g < q.groups && b < q.bpg && Complete(q, g)
    ensures InUse(q, g, jg, off, len, b) <==> OwnedIn(q, g, b) || Owns(q, Journal(jg, off, len), g * q.bpg + b)
  {
    var j := Journal(jg, off, len);
    UsedUp(q, g, b);
    if Owns(q, j, g * q.bpg + b) { OwnedAt(q, j, g, b); }
  }

  method MarkMeta(q: Geo, bm: array<bv8>, g: nat, rootBlk: nat, dindirBlk: nat)
    requires Wf(q) && 8 * bm.Length == q.bpg && forall c: nat :: c < q.bpg ==> !IsSet(bm[..], c)
    requires rootBlk == CopyLen(q) + FlexMeta(q) && dindirBlk == rootBlk + 1
    modifies bm
    ensures forall c: nat :: c < q.bpg ==> (IsSet(bm[..], c) <==> c < MetaLen(q, g))
  {
    var fg := FlexFirst(q, g);
    if g == 0 {
      MarkRange(bm, 0, CopyLen(q) + FlexMeta(q));
      MarkBit(bm, rootBlk);
      if dindirBlk != 0 {
        MarkBit(bm, dindirBlk);
      }
    } else if g == fg {
      MarkRange(bm, 0, FlexMeta(q));
    }
    var super := HasSuper(g);
    if super && g != fg {
      MarkRange(bm, 0, 3);
      MarkRange(bm, 3, CopyLen(q));
    }
  }

  /** One group's block bitmap: set bits are exactly the blocks in use. */
  method BlockBitmapOf(q: Geo, g: nat, jg: nat, off: nat, len: nat) returns (bm: array<bv8>)
    requires Wf(q) && q.bpg % 8 == 0 && Exists(q, Journal(jg, off, len))
    ensures fresh(bm) && 8 * bm.Length == q.bpg
    ensures forall c: nat :: c < q.bpg ==> (IsSet(bm[..], c) <==> InUse(q, g, jg, off, len, c))
  {
    bm := new bv8[q.bpg / 8](_ => 0);
    var rootBlk := CopyLen(q) + FlexMeta(q);
    MarkMeta(q, bm, g, rootBlk, rootBlk + 1);
    if g == jg {
      MarkRange(bm, off, off + len);
    }
  }

  function BitsSet(bm: seq<bv8>, n: nat): nat
    requires n <= 8 * |bm|
  {
    if n == 0 then 0 else BitsSet(bm, n - 1) + if IsSet(bm, n - 1) then 1 else 0
  }

  lemma {:induction false} CountFrontAndRange(bm: seq<bv8>, n: nat, front: nat, lo: nat, hi: nat)
    requires n <= 8 * |bm| && front <= lo <= hi
    requires forall c: nat :: c < n ==> (IsSet(bm, c) <==> c < front || lo <= c < hi)
    ensures BitsSet(bm, n) == Min(n, front) + Min(n, hi) - Min(n, lo)
  {
    if n == 0 {
    } else {
      CountFrontAndRange(bm, n - 1, front, lo, hi);
    }
  }

  function Min(a: nat, b: nat): nat {
    if a < b then a else b
  }

  // ------------------------------------------------------------- descriptors

  /** What a group descriptor counts as used (gdt_count_used). */
  method GdtCountUsed(q: Geo, g: nat, jg: nat, len: nat) returns (used: nat)
    requires Wf(q)
    ensures used == MetaLen(q, g) + if g == jg then len else 0
  {
    var fg := FlexFirst(q, g);
    used := 0;
    if g == fg {
      var dataStart := if fg == 0 then CopyLen(q) + FlexMeta(q) else FlexBase(q, g) + FlexMeta(q);
      used := dataStart - g * q.bpg;
      if g == 0 {
        used := used + 2;
      }
    }
    var super := HasSuper(g);
    if super && g != fg {
      used := used + CopyLen(q);
    }
    if g == jg {
      used := used + len;
    }
  }

  ghost function GroupUsed(q: Geo, g: nat, jg: nat, len: nat): nat
    requires q.flex > 0
  {
    MetaLen(q, g) + if g == jg then len else 0
  }

  /** In every group, wherever the journal is, the bitmap has as many bits set as the descriptor
      counts blocks used. */
  lemma BitmapAgreesWithDescriptor(q: Geo, g: nat, jg: nat, off: nat, len: nat, bm: seq<bv8>)
    requires Wf(q) && Exists(q, Journal(jg, off, len)) && 8 * |bm| == q.bpg
    requires forall c: nat :: c < q.bpg ==> (IsSet(bm, c) <==> InUse(q, g, jg, off, len, c))
    ensures BitsSet(bm, q.bpg) == GroupUsed(q, g, jg, len)
  {
    if g == jg {
      CountFrontAndRange(bm, q.bpg, MetaLen(q, g), off, off + len);
    } else {
      CountFrontAndRange(bm, q.bpg, MetaLen(q, g), q.bpg, q.bpg);
    }
  }

  // -------------------------------------------------------------- superblock

  ghost function SumUsed(q: Geo, n: nat, jg: nat, len: nat): nat
    requires q.flex > 0
  {
    if n == 0 then 0 else SumUsed(q, n - 1, jg, len) + GroupUsed(q, n - 1, jg, len)
  }

  /** Copies in the groups from 1 up to n. */
  ghost function Copies(n: nat): nat {
    if n <= 1 then 0 else Copies(n - 1) + if Sparse(n - 1) then 1 else 0
  }

  /** Flex groups among the first n groups; 5 for the generator's 80 and 16. */
  function FlexGroups(q: Geo, n: nat): nat
    requires q.flex > 0
  {
    (n + q.flex - 1) / q.flex
  }

  lemma FlexGroupsNext(q: Geo, n: nat)
    requires q.flex > 0
    ensures FlexGroups(q, n + 1) == FlexGroups(q, n) + if n == FlexFirst(q, n) then 1 else 0
  {
    var f, d, r := q.flex, n / q.flex, n % q.flex;
    assert n == r + f * d;
    Ceiling(n, r, d, f);
    DivMod(r, d, f);
    assert n == FlexFirst(q, n) <==> r == 0;
  }

  /** The descriptors of the first n groups, summed up. */
  lemma {:induction false} SumOfDescriptors(q: Geo, n: nat, jg: nat, len: nat)
    requires Wf(q) && 1 <= n <= q.groups
    ensures SumUsed(q, n, jg, len)
         == FlexGroups(q, n) * FlexMeta(q) + CopyLen(q) + 2 + Copies(n) * CopyLen(q) + if jg < n then len else 0
    decreases n
  {
    var g := n - 1;
    FlexGroupsNext(q, g);
    if g > 0 {
      SumOfDescriptors(q, g, jg, len);
      MulNext(FlexGroups(q, g), FlexMeta(q));
      MulNext(Copies(g), CopyLen(q));
    } else {
      assert SumUsed(q, 0, jg, len) == 0;
      assert FlexGroups(q, 0) == 0;
    }
  }

  /** count_backup_blks: superblock and two GDT blocks for each copy but the first. */
  method CountBackupBlks(q: Geo) returns (n: nat)
    requires q.groups >= 1
    ensures n == 3 * Copies(q.groups)
  {
    n := 0;
    for g := 1 to q.groups
      invariant n == 3 * Copies(g)
    {
      var super := HasSuper(g);
      if super {
        n := n + 3;
      }
    }
  }

  /** The superblock's total (compute_used_blks) is the sum of what the descriptors count. */
  method ComputeUsedBlks(q: Geo, jg: nat, len: nat) returns (n: nat)
    requires Wf(q) && jg < q.groups
    ensures n == SumUsed(q, q.groups, jg, len)
  {
    n := FlexGroups(q, q.groups) * FlexMeta(q) + 5 + q.resv;
    ghost var base := n;
    for g := 1 to q.groups
      invariant n == base + Copies(g) * q.resv
    {
      MulNext(Copies(g), q.resv);
      var super := HasSuper(g);
      if super {
        n := n + q.resv;
      }
    }
    var backups := CountBackupBlks(q);
    n := n + backups + len;
    SumOfDescriptors(q, q.groups, jg, len);
    MulSum(Copies(q.groups), 3, q.resv);
  }

  // ------------------------------------------------------------ resize inode

  /** The copy of a block of group 0 in group g. */
  function CopyAt(q: Geo, blk: nat, g: nat): nat {
    blk + g * q.bpg
  }

  /** The blocks that one reserved GDT block lists: its copies in the groups from 1 up to n. */
  ghost function CopiesOf(q: Geo, blk: nat, n: nat): seq<nat> {
    if n <= 1 then [] else CopiesOf(q, blk, n - 1) + if Sparse(n - 1) then [CopyAt(q, blk, n - 1)] else []
  }

  /** write_one_resize_gdt; the list is as long as the block has room, and the rest is 0. */
  method WriteOneResizeGdt(q: Geo, blk: nat, room: nat) returns (list: array<nat>)
    requires q.groups >= 1 && Copies(q.groups) <= room
    ensures fresh(list) && list.Length == room
    ensures list[..Copies(q.groups)] == CopiesOf(q, blk, q.groups)
    ensures forall i :: Copies(q.groups) <= i < room ==> list[i] == 0
  {
    list := new nat[room](_ => 0);
    var last := 0;
    CopiesRise(1, q.groups);
    for g := 1 to q.groups
      invariant last == Copies(g) <= room && list[..last] == CopiesOf(q, blk, g)
      invariant forall i :: last <= i < room ==> list[i] == 0
    {
      CopiesRise(g + 1, q.groups);
      CopiesNext(q, blk, g, g + 1);
      var super := HasSuper(g);
      if super {
        list[last] := CopyAt(q, blk, g);
        last := last + 1;
      }
    }
  }

  lemma CopiesNext(q: Geo, blk: nat, g: nat, next: nat)
    requires g >= 1 && next == g + 1
    ensures Copies(next) == Copies(g) + if Sparse(g) then 1 else 0
    ensures CopiesOf(q, blk, next) == CopiesOf(q, blk, g) + if Sparse(g) then [CopyAt(q, blk, g)] else []
  {
  }

  lemma {:induction false} CopiesRise(a: nat, b: nat)
    requires a <= b
    ensures Copies(a) <= Copies(b)
    decreases b
  {
    if a == b {
    } else {
      CopiesRise(a, b - 1);
    }
  }

  method ResizeNblks(q: Geo) returns (n: nat)
    requires q.groups >= 1
    ensures n == 1 + q.resv + Copies(q.groups) * q.resv
  {
    n := 1 + q.resv;
    ghost var all := 0;
    for g := 1 to q.groups
      invariant n == 1 + q.resv + all && all == Copies(g) * q.resv
    {
      MulNext(Copies(g), q.resv);
      all := Copies(g + 1) * q.resv;
      var super := HasSuper(g);
      if super {
        n := n + q.resv;
      }
    }
  }

  /** The reserved GDT blocks list exactly the reserved parts of all copies behind group 0, each
      list as long as there are copies: what the resize inode's block count adds up. */
  lemma {:induction false} ListedExactly(q: Geo, blk: nat, n: nat, b: nat)
    requires 3 <= blk < CopyLen(q) && q.flex > 0 && n >= 1
    ensures |CopiesOf(q, blk, n)| == Copies(n)
    ensures b in CopiesOf(q, blk, n) <==> exists g: nat :: 1 <= g < n && Sparse(g) && b == g * q.bpg + blk
    ensures b in CopiesOf(q, blk, n) ==> exists g: nat :: g < n && Sparse(g) && Owns(q, Copy(g), b)
  {
    if n == 1 {
    } else {
      var g := n - 1;
      ListedExactly(q, blk, g, b);
      if Sparse(g) && b == blk + g * q.bpg { assert Owns(q, Copy(g), b); }
    }
  }

  /** Entry i of the dindir block's list has gone to its place, unless a later one replaced it. */
  ghost predicate Kept(list: seq<nat>, i: nat, n: nat) {
    |list| > 0 && i < n <= i + |list| ==> list[(2 + i) % |list|] == 3 + i
  }

  /** What stands at j, if anything, is an entry that belongs there. */
  ghost predicate FromEntry(list: seq<nat>, j: nat, n: nat)
    requires j < |list|
  {
    list[j] == 0 || (3 <= list[j] < 3 + n && j == (list[j] - 1) % |list|)
  }

  /** The first-level list of write_resize_data, in a block with room for apb addresses: it starts
      behind two entries and goes round. */
  method WriteDindir(q: Geo, apb: nat) returns (list: array<nat>)
    requires apb > 0
    ensures fresh(list) && list.Length == apb
    ensures forall i: nat :: i < q.resv ==> Kept(list[..], i, q.resv)
    ensures forall j: nat :: j < apb ==> FromEntry(list[..], j, q.resv)
  {
    list := new nat[apb](_ => 0);
    var off, blk := 2, 3;
    for n := 0 to q.resv
      invariant blk == 3 + n && off % apb == (2 + n) % apb
      invariant forall i: nat :: i < n ==> Kept(list[..], i, n)
      invariant forall j: nat :: j < apb ==> FromEntry(list[..], j, n)
    {
      ghost var was := list[..];
      off := off % apb;
      list[off] := blk;
      EntryAdded(was, list[..], n, off, n + 1);
      NextMod(2 + n, apb);
      off, blk := off + 1, blk + 1;
    }
  }

  lemma EntryAdded(was: seq<nat>, list: seq<nat>, n: nat, off: nat, next: nat)
    requires next == n + 1 && |was| > 0 && off == (2 + n) % |was| && list == was[off := 3 + n]
    requires forall i: nat :: i < n ==> Kept(was, i, n)
    requires forall j: nat :: j < |was| ==> FromEntry(was, j, n)
    ensures forall i: nat :: i < next ==> Kept(list, i, next)
    ensures forall j: nat :: j < |list| ==> FromEntry(list, j, next)
  {
    forall i: nat | i < next ensures Kept(list, i, next) {
      if i < n && next <= i + |list| {
        assert Kept(was, i, n);
        ModApart(2 + i, 2 + n, |list|);
      }
    }
    forall j: nat | j < |list| ensures FromEntry(list, j, next) {
      assert FromEntry(was, j, n);
    }
  }

  /** Block b is named in its place. */
  ghost predicate Named(list: seq<nat>, b: nat) {
    b >= 1 && |list| > 0 && list[(b - 1) % |list|] == b
  }

  /** Every reserved GDT block is named, and in one place only, exactly when there are no more of
      them than the dindir block has room for. */
  lemma NamedOnce(list: seq<nat>, resv: nat)
    requires |list| > 0
    requires forall i: nat :: i < resv ==> Kept(list, i, resv)
    requires forall j: nat :: j < |list| ==> FromEntry(list, j, resv)
    ensures (forall b :: 3 <= b < 3 + resv ==> b in list) <==> resv <= |list|
    ensures resv <= |list| ==> forall b: nat :: 3 <= b < 3 + resv ==> Named(list, b)
    ensures forall j, k :: 0 <= j < k < |list| && list[j] == list[k] ==> list[j] == 0
  {
    if resv <= |list| {
      forall b: nat | 3 <= b < 3 + resv ensures Named(list, b) && b in list {
        assert Kept(list, b - 3, resv);
        assert list[(b - 1) % |list|] == b;
      }
    } else if 3 in list {
      var j: nat :| j < |list| && list[j] == 3;
      assert FromEntry(list, j, resv);
      Replaced(list, resv);
    }
    forall j: nat, k: nat | j < k < |list| && list[j] == list[k] ensures list[j] == 0 {
      assert FromEntry(list, j, resv) && FromEntry(list, k, resv);
    }
  }

  /** With more blocks than room, the first one's place goes to a later one. */
  lemma Replaced(list: seq<nat>, resv: nat)
    requires 0 < |list| < resv && forall i: nat :: i < resv ==> Kept(list, i, resv)
    ensures list[2 % |list|] != 3
  {
    var i := LastMultiple(resv - 1, |list|, 2);
    assert Kept(list, i, resv);
  }

  // ------------------------------------------------------------- free blocks

  /** The blocks of group g when the file system has that many; fewer than none past its end. */
  function GroupBlocks(q: Geo, blocks: nat, g: nat): int {
    if g < q.groups - 1 then q.bpg else blocks - g * q.bpg
  }

  const TWO_32 := 0x1_0000_0000

  /** The free count that gdt_set_free_counts stores, from numbers of 32 bits and in 16. */
  function FreeCount(q: Geo, blocks: nat, g: nat, used: nat): nat {
    var size := GroupBlocks(q, blocks, g) % TWO_32;
    if used < size then (size - used) % 0x1_0000 else 0
  }

  /** The free blocks of group g; less than none when more is placed in it than it has. */
  ghost function Free(q: Geo, blocks: nat, g: nat, jg: nat, len: nat): int
    requires q.flex > 0
  {
    GroupBlocks(q, blocks, g) - GroupUsed(q, g, jg, len)
  }

  /** By how much the stored count misses the free blocks. */
  ghost function Miss(q: Geo, blocks: nat, g: nat, jg: nat, len: nat): int
    requires q.flex > 0
  {
    FreeCount(q, blocks, g, GroupUsed(q, g, jg, len)) - Free(q, blocks, g, jg, len)
  }

  /** The count is right exactly when the free blocks are a number of 16 bits; it is too high where
      there is less than none, and else never too high. */
  lemma CountIsRight(q: Geo, blocks: nat, g: nat, jg: nat, len: nat)
    requires q.flex > 0 && q.bpg < TWO_32 && blocks < TWO_32
    ensures Miss(q, blocks, g, jg, len) == 0 <==> 0 <= Free(q, blocks, g, jg, len) < 0x1_0000
    ensures if Free(q, blocks, g, jg, len) < 0 then Miss(q, blocks, g, jg, len) > 0
            else Miss(q, blocks, g, jg, len) <= 0
  {
    RightIn16(GroupBlocks(q, blocks, g), GroupUsed(q, g, jg, len));
  }

  lemma RightIn16(size: int, used: nat)
    requires size < TWO_32
    ensures var n := size % TWO_32;
      var count := if used < n then (n - used) % 0x1_0000 else 0;
      && (count == size - used <==> 0 <= size - used < 0x1_0000)
      && if size - used < 0 then count > size - used else count <= size - used
  {
  }

  ghost function SumFree(q: Geo, blocks: nat, n: nat, jg: nat, len: nat): nat
    requires q.flex > 0
  {
    if n == 0 then 0
    else SumFree(q, blocks, n - 1, jg, len) + FreeCount(q, blocks, n - 1, GroupUsed(q, n - 1, jg, len))
  }

  ghost function SumMiss(q: Geo, blocks: nat, n: nat, jg: nat, len: nat): int
    requires q.flex > 0
  {
    if n == 0 then 0 else SumMiss(q, blocks, n - 1, jg, len) + Miss(q, blocks, n - 1, jg, len)
  }

  lemma {:induction false} FreeInFront(q: Geo, blocks: nat, n: nat, jg: nat, len: nat)
    requires q.flex > 0 && n < q.groups
    ensures SumFree(q, blocks, n, jg, len) + SumUsed(q, n, jg, len) == n * q.bpg + SumMiss(q, blocks, n, jg, len)
  {
    if n == 0 {
    } else {
      FreeInFront(q, blocks, n - 1, jg, len);
      MulNext(n - 1, q.bpg);
    }
  }

  /** Conservation: the descriptors' free counts add up to all blocks less the used ones, but for
      what the single counts miss. */
  lemma FreeConserved(q: Geo, blocks: nat, jg: nat, len: nat)
    requires q.flex > 0 && q.groups >= 1
    ensures SumFree(q, blocks, q.groups, jg, len)
         == blocks - SumUsed(q, q.groups, jg, len) + SumMiss(q, blocks, q.groups, jg, len)
  {
    FreeInFront(q, blocks, q.groups - 1, jg, len);
  }

  /** All groups but the last have room for what is placed in them. */
  lemma FrontHasRoom(q: Geo, blocks: nat, g: nat, jg: nat, off: nat, len: nat)
    requires Wf(q) && g < q.groups - 1 && Exists(q, Journal(jg, off, len))
    ensures 0 <= Free(q, blocks, g, jg, len) <= q.bpg
  {
  }

  lemma {:induction false} MissesAddUp(q: Geo, blocks: nat, n: nat, jg: nat, len: nat)
    requires q.flex > 0 && forall g: nat :: g < n ==> Miss(q, blocks, g, jg, len) <= 0
    ensures SumMiss(q, blocks, n, jg, len) <= 0
    ensures SumMiss(q, blocks, n, jg, len) == 0 <==> forall g: nat :: g < n ==> Miss(q, blocks, g, jg, len) == 0
  {
    if n == 0 {
    } else {
      MissesAddUp(q, blocks, n - 1, jg, len);
    }
  }

  /** The superblock's free count is all blocks less the used ones. */
  ghost predicate AddUp(q: Geo, blocks: nat, jg: nat, len: nat)
    requires q.flex > 0
  {
    SumFree(q, blocks, q.groups, jg, len) == blocks - SumUsed(q, q.groups, jg, len)
  }

  ghost predicate LastHasRoom(q: Geo, blocks: nat, jg: nat, len: nat)
    requires q.flex > 0 && q.groups >= 1
  {
    Free(q, blocks, q.groups - 1, jg, len) >= 0
  }

  /** When the last and possibly shorter group has room for what is placed in it, the descriptors'
      free counts add up to the superblock's exactly when no group has 2^16 free blocks or more.
      When groups are smaller than that, they do exactly when the last group has that room. With
      neither, one wrong count may make up for another: FreeConserved has the difference. */
  lemma FreeCountsAddUp(q: Geo, blocks: nat, jg: nat, off: nat, len: nat)
    requires Wf(q) && Exists(q, Journal(jg, off, len)) && q.bpg < TWO_32
    requires blocks < TWO_32 && blocks <= q.groups * q.bpg
    ensures LastHasRoom(q, blocks, jg, len) ==>
      (AddUp(q, blocks, jg, len) <==> forall g: nat :: g < q.groups ==> Free(q, blocks, g, jg, len) < 0x1_0000)
    ensures q.bpg < 0x1_0000 ==> (AddUp(q, blocks, jg, len) <==> LastHasRoom(q, blocks, jg, len))
  {
    if LastHasRoom(q, blocks, jg, len) { AddUpWithRoom(q, blocks, jg, off, len); }
    if q.bpg < 0x1_0000 { AddUpIn16(q, blocks, jg, off, len); }
  }

  lemma AddUpWithRoom(q: Geo, blocks: nat, jg: nat, off: nat, len: nat)
    requires Wf(q) && Exists(q, Journal(jg, off, len)) && q.bpg < TWO_32 && blocks < TWO_32
    requires LastHasRoom(q, blocks, jg, len)
    ensures AddUp(q, blocks, jg, len) <==> forall g: nat :: g < q.groups ==> Free(q, blocks, g, jg, len) < 0x1_0000
  {
    FreeConserved(q, blocks, jg, len);
    FrontMisses(q, blocks, jg, off, len);
    CountIsRight(q, blocks, q.groups - 1, jg, len);
    MissesAddUp(q, blocks, q.groups, jg, len);
  }

  lemma AddUpIn16(q: Geo, blocks: nat, jg: nat, off: nat, len: nat)
    requires Wf(q) && Exists(q, Journal(jg, off, len)) && q.bpg < 0x1_0000
    requires blocks < TWO_32 && blocks <= q.groups * q.bpg
    ensures AddUp(q, blocks, jg, len) <==> LastHasRoom(q, blocks, jg, len)
  {
    FreeConserved(q, blocks, jg, len);
    FrontMisses(q, blocks, jg, off, len);
    MissesAddUp(q, blocks, q.groups - 1, jg, len);
    CountIsRight(q, blocks, q.groups - 1, jg, len);
    LastIsSmaller(q, blocks, jg, len);
  }

  /** In front of the last group, a count misses something exactly where 16 bits are too few. */
  lemma FrontMisses(q: Geo, blocks: nat, jg: nat, off: nat, len: nat)
    requires Wf(q) && Exists(q, Journal(jg, off, len)) && q.bpg < TWO_32 && blocks < TWO_32
    ensures forall g: nat :: g < q.groups - 1 ==> Miss(q, blocks, g, jg, len) <= 0
    ensures forall g: nat :: g < q.groups - 1 ==> Free(q, blocks, g, jg, len) <= q.bpg
    ensures forall g: nat :: g < q.groups - 1 ==>
      (Miss(q, blocks, g, jg, len) == 0 <==> Free(q, blocks, g, jg, len) < 0x1_0000)
  {
    forall g: nat | g < q.groups - 1
      ensures Miss(q, blocks, g, jg, len) <= 0 && Free(q, blocks, g, jg, len) <= q.bpg
      ensures Miss(q, blocks, g, jg, len) == 0 <==> Free(q, blocks, g, jg, len) < 0x1_0000
    {
      FrontHasRoom(q, blocks, g, jg, off, len);
      CountIsRight(q, blocks, g, jg, len);
    }
  }

  lemma LastIsSmaller(q: Geo, blocks: nat, jg: nat, len: nat)
    requires q.flex > 0 && q.groups >= 1 && blocks <= q.groups * q.bpg
    ensures Free(q, blocks, q.groups - 1, jg, len) <= q.bpg
  {
    MulNext(q.groups - 1, q.bpg);
  }

  /** The generator's own numbers: 80 groups, 2621440 blocks, a journal of 16384 blocks. */
  lemma HeaderInstance()
    ensures var jg := FlexFirst(HEADER, 79);
      && jg == 64 && FlexGroups(HEADER, 80) == 5 && Exists(HEADER, Journal(jg, FlexMeta(HEADER), 16384))
      && SumFree(HEADER, 2621440, 80, jg, 16384) == 2621440 - SumUsed(HEADER, 80, jg, 16384)
  {
    HeaderWf();
    GeneratorJournal(HEADER, 16384);
    FreeCountsAddUp(HEADER, 2621440, 64, FlexMeta(HEADER), 16384);
  }
}
