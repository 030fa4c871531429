/** Block and inode bitmaps and inode placement (Kernel/ext2.c). */
module Ext2Alloc {
  import opened Arith

  /** One block group: its bitmap on disk, true for a used bit, and the free count of its descriptor. */
  datatype Group = Group(bits: seq<bool>, free: int)

  ghost function Clear(bits: seq<bool>): nat {
    if bits == [] then 0 else (if bits[0] then 0 else 1) + Clear(bits[1..])
  }

  lemma {:induction false} ClearUpdate(bits: seq<bool>, o: nat, v: bool)
    requires o < |bits|
    ensures Clear(bits[o := v]) == Clear(bits) + (if bits[o] then 1 else 0) - (if v then 1 else 0)
  {
    if o == 0 {
      assert bits[o := v][1..] == bits[1..];
    } else {
      ClearUpdate(bits[1..], o - 1, v);
      assert bits[o := v][1..] == bits[1..][o - 1 := v];
    }
  }

  lemma {:induction false} ClearNone(bits: seq<bool>)
    requires forall o :: 0 <= o < |bits| ==> bits[o]
    ensures Clear(bits) == 0
  {
    if bits != [] { ClearNone(bits[1..]); }
  }

  ghost function FreeSum(groups: seq<Group>): int {
    if groups == [] then 0 else groups[0].free + FreeSum(groups[1..])
  }

  lemma {:induction false} FreeSumUpdate(groups: seq<Group>, i: nat, g: Group)
    requires i < |groups|
    ensures FreeSum(groups[i := g]) == FreeSum(groups) - groups[i].free + g.free
  {
    if i == 0 {
      assert groups[i := g][1..] == groups[1..];
    } else {
      FreeSumUpdate(groups[1..], i - 1, g);
      assert groups[i := g][1..] == groups[1..][i - 1 := g];
    }
  }

  /** Each free count is the number of clear bits, no bit past the group's last block is clear, and the
      superblock holds the sum of the counts. */
  ghost predicate Consistent(groups: seq<Group>, total: int, per: nat) {
    && per >= 1
    && (forall i :: 0 <= i < |groups| ==> GroupOk(groups[i], per))
    && total == FreeSum(groups)
  }

  ghost predicate GroupOk(g: Group, per: nat) {
    && per <= |g.bits| && g.free == Clear(g.bits)
    && (forall o :: per <= o < |g.bits| ==> g.bits[o])
  }

  /** Bit o of group i becomes used, or free again. */
  function Marked(groups: seq<Group>, i: nat, o: nat, used: bool): seq<Group>
    requires i < |groups| && o < |groups[i].bits|
  {
    groups[i := Group(groups[i].bits[o := used], groups[i].free + if used then -1 else 1)]
  }

  lemma MarkKeeps(groups: seq<Group>, total: int, per: nat, i: nat, o: nat, used: bool)
    requires Consistent(groups, total, per) && i < |groups| && o < per && groups[i].bits[o] != used
    ensures Consistent(Marked(groups, i, o, used), total + (if used then -1 else 1), per)
  {
    var g := Group(groups[i].bits[o := used], groups[i].free + if used then -1 else 1);
    assert GroupOk(groups[i], per);
    ClearUpdate(groups[i].bits, o, used);
    FreeSumUpdate(groups, i, g);
  }

  /** Group i is the first with a free bit, and o its first clear bit. */
  ghost predicate FirstFree(groups: seq<Group>, i: nat, o: nat) {
    && i < |groups| && o < |groups[i].bits| && !groups[i].bits[o]
    && (forall k :: 0 <= k < i ==> groups[k].free <= 0)
    && (forall k :: 0 <= k < o ==> groups[i].bits[k])
  }

  /** The scan for the first clear bit of a bitmap that has one. */
  method ScanBits(bits: seq<bool>) returns (o: nat)
    requires Clear(bits) > 0
    ensures o < |bits| && !bits[o] && forall k :: 0 <= k < o ==> bits[k]
  {
    if forall k :: 0 <= k < |bits| ==> bits[k] { ClearNone(bits); }
    o := 0;
    while bits[o]
      invariant o < |bits| && forall k :: 0 <= k < o ==> bits[k]
      invariant exists k :: o <= k < |bits| && !bits[k]
      decreases |bits| - o
    {
      o := o + 1;
    }
  }

  /** Some group has a free block left. */
  ghost predicate HasFree(groups: seq<Group>) {
    exists k :: 0 <= k < |groups| && groups[k].free > 0
  }

  /** The search shared by ext2_alloc_block and ext2_alloc_inode: the first clear bit of the first group with a
      free one becomes used. The search falls through exactly when no group has one. */
  method TakeBit(groups: seq<Group>, ghost total: int, per: nat) returns (found: bool, i: nat, o: nat, groups': seq<Group>)
    requires Consistent(groups, total, per)
    ensures found <==> HasFree(groups)
    ensures !found ==> groups' == groups
    ensures found ==> FirstFree(groups, i, o) && o < per && groups' == Marked(groups, i, o, true) && Consistent(groups', total - 1, per)
  {
    i, o, groups' := 0, 0, groups;
    while i < |groups| && groups[i].free <= 0
      invariant i <= |groups| && forall k :: 0 <= k < i ==> groups[k].free <= 0
    {
      i := i + 1;
    }
    found := i < |groups|;
    if found {
      assert GroupOk(groups[i], per);
      o := ScanBits(groups[i].bits);
      MarkKeeps(groups, total, per, i, o, true);
      groups' := groups[i := Group(groups[i].bits[o := true], groups[i].free - 1)];
    }
  }

  class Bitmaps {
    var groups: seq<Group>     // group descriptors with the bitmaps they name
    var total: int             // s_free_blocks, or s_free_inodes
    const per: nat             // blk_per_group, or inode_per_grp
    const first: nat           // first_data_block

    ghost predicate Valid()
      reads this
    {
      Consistent(groups, total, per)
    }

    /** A freshly formatted file system: count groups of per blocks, all free, in bitmaps of bits bits. */
    constructor (count: nat, bits: nat, per: nat, first: nat)
      requires 1 <= per <= bits
      ensures Valid() && total == count * per && this.per == per && this.first == first && |groups| == count
      ensures forall i, o :: 0 <= i < count && 0 <= o < per ==> !groups[i].bits[o]
    {
      var g := Group(seq(bits, o => o >= per), per);
      BlankClear(bits, per);
      BlankSum(count, g);
      groups, total, this.per, this.first := seq(count, _ => g), count * per, per, first;
    }

    /** ext2_alloc_block. junk is what the uninitialised variable holds that is returned when no block is free. */
    method AllocBlock(junk: int) returns (blockNo: int, ghost i: nat, ghost o: nat)
      requires Valid()
      modifies this
      ensures Valid()
      ensures if old(HasFree(groups))
              then FirstFree(old(groups), i, o) && o < per && blockNo == o + per * i
                   && groups == old(groups)[i := Group(old(groups)[i].bits[o := true], old(groups)[i].free - 1)] && total == old(total) - 1
              else blockNo == junk && groups == old(groups) && total == old(total)
    {
      var found, g, offset, after := TakeBit(groups, total, per);
      blockNo, i, o := junk, g, offset;
      if found {
        blockNo := offset + per * g;
        groups, total := after, total - 1;
      }
    }

    /** ext2_alloc_inode: the number it gives out was not in use, and its placement finds that group and bit. */
    method AllocInode(junk: int) returns (inode: int, ghost i: nat, ghost o: nat)
      requires Valid()
      modifies this
      ensures Valid()
      ensures if old(HasFree(groups))
              then FirstFree(old(groups), i, o) && inode >= 1 && (inode - 1) / per == i && (inode - 1) % per == o
                   && groups == old(groups)[i := Group(old(groups)[i].bits[o := true], old(groups)[i].free - 1)] && total == old(total) - 1
              else inode == junk && groups == old(groups) && total == old(total)
    {
      var found, g, offset, after := TakeBit(groups, total, per);
      inode, i, o := junk, g, offset;
      if found {
        inode := offset + per * g + 1;
        AllocatedInodePlace(g, offset, per);
        groups, total := after, total - 1;
      }
    }

    /** ext2_free_block; the bit it computes must exist. Freeing a used block of a group keeps the counts right. */
    method FreeBlock(blockNo: int)
      requires Valid() && InBitmap(groups, per, first, blockNo)
      modifies this
      ensures var g := GroupNo(blockNo, first, per);
              && groups == Marked(old(groups), g, blockNo - g * per, false) && total == old(total) + 1
              && (blockNo - g * per < per && old(groups)[g].bits[blockNo - g * per] ==> Valid())
    {
      var g := GroupNo(blockNo, first, per);
      var offset := blockNo - g * per;
      if offset < per && groups[g].bits[offset] { MarkKeeps(groups, total, per, g, offset, false); }
      groups := groups[g := Group(groups[g].bits[offset := false], groups[g].free + 1)];
      total := total + 1;
    }
  }

  lemma {:induction false} BlankClear(bits: nat, per: int)
    requires per <= bits
    ensures Clear(seq(bits, o => o >= per)) == if per < 0 then 0 else per
    decreases bits
  {
    var s := seq(bits, o => o >= per);
    if per <= 0 {
      ClearNone(s);
    } else {
      BlankClear(bits - 1, per - 1);
      assert s[1..] == seq(bits - 1, o => o >= per - 1);
    }
  }

  lemma {:induction false} BlankSum(count: nat, g: Group)
    ensures FreeSum(seq(count, _ => g)) == count * g.free
    decreases count
  {
    if count > 0 {
      BlankSum(count - 1, g);
      assert seq(count, _ => g)[1..] == seq(count - 1, _ => g);
    }
  }

  /** Allocating a block and freeing it restores every bitmap and every count exactly when the bit found is not
      below first_data_block. (Where the bit that freeing computes does not exist the call is left out.) */
  method AllocThenFree(b: Bitmaps) returns (blockNo: int, ghost o: nat)
    requires b.Valid() && HasFree(b.groups) && |b.groups| * b.per <= WORD / 2 && b.first + b.per < WORD
    modifies b
    ensures b.groups == old(b.groups) && b.total == old(b.total) <==> o >= b.first
    ensures o >= b.first ==> b.Valid()
  {
    ghost var was, i;
    was := b.groups;
    blockNo, i, o := b.AllocBlock(0);
    BlockBits(was, i, o, b.per, b.first);
    if InBitmap(b.groups, b.per, b.first, blockNo) {
      b.FreeBlock(blockNo);
    }
  }

  /** What freeing the block number of bit o in group i does right after that bit was set. */
  lemma BlockBits(groups: seq<Group>, i: nat, o: nat, per: nat, first: nat)
    requires i < |groups| && o < |groups[i].bits| && !groups[i].bits[o] && o < per && |groups| * per <= WORD / 2 && first + per < WORD
    ensures var after, blockNo := Marked(groups, i, o, true), o + per * i;
            var g := GroupNo(blockNo, first, per);
            && after != groups
            && (o >= first ==> InBitmap(after, per, first, blockNo) && g == i && blockNo - g * per == o && Marked(after, i, o, false) == groups)
            && (o < first && InBitmap(after, per, first, blockNo) ==> Marked(after, g, blockNo - g * per, false) != groups)
  {
    MulMono(i + 1, |groups|, per);
    FreeFindsBlock(i, o, first, per);
    FreeUndoesAlloc(groups, i, o);
    var after, blockNo := Marked(groups, i, o, true), o + per * i;
    var g := GroupNo(blockNo, first, per);
    assert after[i].bits[o] && !groups[i].bits[o];
    if o < first && InBitmap(after, per, first, blockNo) { OtherGroup(groups, after, i, o, g, blockNo - g * per); }
  }

  lemma OtherGroup(groups: seq<Group>, after: seq<Group>, i: nat, o: nat, g: nat, p: nat)
    requires i < |groups| == |after| && o < |groups[i].bits| == |after[i].bits| && after[i].bits[o] && !groups[i].bits[o]
    requires g < |after| && g != i && p < |after[g].bits|
    ensures Marked(after, g, p, false) != groups
  {
    assert Marked(after, g, p, false)[i] == after[i];
  }

  /** The group ext2_free_block computes: an unsigned difference and quotient, stored as a signed number. */
  function GroupNo(blockNo: int, first: nat, per: nat): int
    requires per >= 1
  {
    Signed((blockNo - first) % WORD / per)
  }

  function Signed(x: int): int {
    if x >= WORD / 2 then x - WORD else x
  }

  /** The bit ext2_free_block clears exists. */
  predicate InBitmap(groups: seq<Group>, per: nat, first: nat, blockNo: int) {
    per >= 1 && var g := GroupNo(blockNo, first, per);
    0 <= g < |groups| && 0 <= blockNo - g * per < |groups[g].bits|
  }

  /** Freeing finds the group and bit that allocation used exactly when the bit is not below
      first_data_block, which ext2_alloc_block leaves out of the block number. */
  lemma FreeFindsBlock(i: nat, o: nat, first: nat, per: nat)
    requires per >= 1 && o < per && o + per * i < WORD / 2 && first + per < WORD
    ensures GroupNo(o + per * i, first, per) == i <==> o >= first
  {
    var y := per * i;
    if o + y >= first {
      InOrder(o + y - first, per);
      if o >= first { DivModIs(o + y - first, per, i, o - first); } else { Below(o + y - first, per, i); }
    } else {
      DivModIs(o + y - first, WORD, -1, o + y - first + WORD);
      BigQuotient(o + y - first + WORD, per, i);
    }
  }

  lemma InOrder(x: nat, per: nat)
    requires x < WORD / 2 && per >= 1
    ensures Signed(x % WORD / per) == x / per
  {
    DivModIs(x, WORD, 0, x);
    QuotientSmall(x, per);
  }

  lemma QuotientSmall(x: nat, per: nat)
    requires per >= 1
    ensures 0 <= x / per <= x
  {
    MulMono(1, per, x + 1);
    QuotientBound(x, per, x + 1);
  }

  lemma Below(x: nat, per: nat, i: nat)
    requires per >= 1 && x < i * per
    ensures x / per < i
  {
    QuotientBound(x, per, i);
  }

  /** A wrapped-around difference names no group at or below i. */
  lemma BigQuotient(y: nat, per: nat, i: nat)
    requires 1 <= per && WORD > y && (i + 1) * per <= y
    ensures Signed(y / per) != i
  {
    assert y == (y / per) * per + y % per;
    if y / per <= i { MulMono(y / per + 1, i + 1, per); }
  }

  /** Freeing a block just allocated restores every bitmap and every count, whenever it finds the block;
      with first_data_block zero it always does. */
  lemma FreeUndoesAlloc(groups: seq<Group>, i: nat, o: nat)
    requires i < |groups| && o < |groups[i].bits| && !groups[i].bits[o]
    ensures Marked(Marked(groups, i, o, true), i, o, false) == groups
  {
    var g := groups[i];
    assert g.bits[o := true][o := false] == g.bits;
  }

  // ----- Inode placement -----

  /** ext2_inode_to_block: the block and the slot in it that hold an inode. */
  function InodePlace(inode: int, per: nat, size: nat, blk: nat, tables: seq<int>): (int, int)
    requires inode >= 1 && per >= 1 && 1 <= size <= blk && (inode - 1) / per < |tables|
  {
    var group := (inode - 1) / per;
    var index := (inode - 1) % per;
    (tables[group] + index * size / blk, index % (blk / size))
  }

  /** ext2_inode_to_block: numbers below 1 are refused. Otherwise, with whole inodes in a block, the inode is the
      offset-th one in the q-th block of the table of group g, counting from the number back. */
  method InodeToBlock(inode: int, per: nat, size: nat, blk: nat, tables: seq<int>)
    returns (ret: int, containing: int, offset: int, ghost g: nat, ghost q: nat)
    requires per >= 1 && 1 <= size <= blk && (inode >= 1 ==> (inode - 1) / per < |tables|)
    ensures ret == if inode < 1 then -1 else 0
    ensures inode >= 1 && blk % size == 0 ==>
              && g < |tables| && containing == tables[g] + q && 0 <= offset < blk / size && q <= (per - 1) / (blk / size)
              && inode - 1 == g * per + (q * (blk / size) + offset)
    ensures inode >= 1 ==> (containing, offset) == InodePlace(inode, per, size, blk, tables)
  {
    g, q := 0, 0;
    if inode < 1 { return -1, 0, 0, g, q; }
    var group, index := (inode - 1) / per, (inode - 1) % per;
    containing := tables[group] + index * size / blk;
    offset := index % (blk / size);
    ret := 0;
    if blk % size == 0 {
      WholeInodes(size, blk);
      ghost var r;
      g, q, r := PlaceParts(inode, per, size, blk, blk / size, tables);
    }
  }

  lemma WholeInodes(size: nat, blk: nat)
    requires 1 <= size <= blk && blk % size == 0
    ensures blk / size >= 1 && blk == (blk / size) * size
  {
    var k := blk / size;
    assert blk == k * size + blk % size;
  }

  /** The inode tables of the groups, whose last block is number `last`, do not overlap. */
  ghost predicate TablesApart(tables: seq<int>, last: int) {
    forall i, j :: 0 <= i < |tables| && 0 <= j < |tables| && i != j ==> tables[i] + last < tables[j] || tables[j] + last < tables[i]
  }

  /** With k whole inodes per block, index i is slot i % k of the (i / k)-th block of the table. */
  lemma PlaceInTable(index: nat, size: nat, blk: nat, k: nat)
    requires size >= 1 && k >= 1 && blk == k * size
    ensures blk / size == k && index * size / blk == index / k
  {
    DivModIs(blk, size, k, 0);
    var u, r := index / k, index % k;
    assert index == u * k + r;
    MulMono(r, k - 1, size);
    assert (k - 1) * size == blk - size;
    assert index * size == u * blk + r * size by { assert (u * k + r) * size == u * (k * size) + r * size; }
    DivModIs(index * size, blk, u, r * size);
  }

  /** The group, the block of its table and the slot in that block; together they give the number back. */
  lemma PlaceParts(inode: int, per: nat, size: nat, blk: nat, k: nat, tables: seq<int>) returns (g: nat, q: nat, r: int)
    requires inode >= 1 && per >= 1 && 1 <= size <= blk && k >= 1 && blk == k * size && (inode - 1) / per < |tables|
    ensures g < |tables| && q <= (per - 1) / k && 0 <= r < k && inode - 1 == g * per + (q * k + r)
    ensures InodePlace(inode, per, size, blk, tables) == (tables[g] + q, r)
  {
    var x := inode - 1;
    var index := x % per;
    g, q, r := x / per, index / k, index % k;
    Recombine(x, per);
    Recombine(index, k);
    PlaceInTable(index, size, blk, k);
    DivMono(index, per - 1, k);
  }

  lemma Recombine(x: nat, n: nat)
    requires n >= 1
    ensures x == (x / n) * n + x % n && 0 <= x % n < n && x / n >= 0
  {
  }

  /** Different inodes are kept in different places. */
  lemma PlacesDiffer(a: int, b: int, per: nat, size: nat, blk: nat, k: nat, tables: seq<int>)
    requires a >= 1 && b >= 1 && a != b && per >= 1 && 1 <= size <= blk && k >= 1 && blk == k * size
    requires (a - 1) / per < |tables| && (b - 1) / per < |tables| && TablesApart(tables, (per - 1) / k)
    ensures InodePlace(a, per, size, blk, tables) != InodePlace(b, per, size, blk, tables)
  {
    var g, q, r := PlaceParts(a, per, size, blk, k, tables);
    var h, s, t := PlaceParts(b, per, size, blk, k, tables);
    TableSlots(tables, (per - 1) / k, g, q, r, h, s, t);
  }

  lemma TableSlots(tables: seq<int>, last: int, g: nat, qi: nat, ri: int, h: nat, qj: nat, rj: int)
    requires TablesApart(tables, last) && g < |tables| && h < |tables| && qi <= last && qj <= last
    requires g != h || qi != qj || ri != rj
    ensures (tables[g] + qi, ri) != (tables[h] + qj, rj)
  {
  }

  lemma DivMono(x: nat, y: nat, k: nat)
    requires x <= y && k >= 1
    ensures 0 <= x / k <= y / k
  {
    assert x == (x / k) * k + x % k && y == (y / k) * k + y % k;
    if y / k < x / k { MulMono(y / k + 1, x / k, k); }
  }

  /** ext2_alloc_inode numbers bit o of group i so that the placement finds that group and index. */
  lemma AllocatedInodePlace(i: nat, o: nat, per: nat)
    requires o < per
    ensures (o + per * i + 1 - 1) / per == i && (o + per * i + 1 - 1) % per == o
  {
    DivModIs(o + per * i, per, i, o);
  }
}
