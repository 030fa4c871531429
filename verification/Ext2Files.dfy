/** The block map of an inode over the block bitmaps (Kernel/ext2.c): the index blocks come from ext2_alloc_block
    itself, so that they are new to the inode follows from the bitmaps. */
module Ext2Files {
  import opened Arith
  import opened Ext2Map
  import opened Ext2Inode
  import opened Ext2Alloc

  ghost predicate Bit(groups: seq<Group>, g: int, o: int) {
    0 <= g < |groups| && 0 <= o < |groups[g].bits| && groups[g].bits[o]
  }

  /** The bit of block x is set. */
  ghost predicate UsedBlock(groups: seq<Group>, per: nat, x: int)
    requires per >= 1
  {
    0 <= x && Bit(groups, x / per, x % per)
  }

  /** The inode's trees are sound, the counts are right, every index block is marked used, and a block not marked
      used is not block 0 and holds zeros. */
  ghost predicate Ledger(disk: Disk, iblock: seq<int>, n: nat, groups: seq<Group>, total: int, per: nat) {
    && InodeOk(disk, iblock, n) && Consistent(groups, total, per)
    && (forall d, x :: 1 <= d <= 3 && InTree(disk, n, iblock[Top(d)], d, x) ==> UsedBlock(groups, per, x))
    && (forall x :: !UsedBlock(groups, per, x) ==> x != 0 && ZeroFilled(disk, n, x))
  }

  // ----- Allocation in terms of block numbers -----

  lemma MarkedBit(groups: seq<Group>, i: nat, o: nat, g: int, p: int)
    requires i < |groups| && o < |groups[i].bits|
    ensures Bit(Marked(groups, i, o, true), g, p) <==> Bit(groups, g, p) || (g == i && p == o)
  {
  }

  lemma Spot(x: int, per: nat, i: nat, o: nat)
    requires per >= 1 && o < per
    ensures 0 <= x && x / per == i && x % per == o <==> x == o + per * i
  {
    DivModIs(o + per * i, per, i, o);
    if 0 <= x { Recombine(x, per); }
  }

  /** Marking bit o of group i marks exactly the block ext2_alloc_block returns, which was not marked before. */
  lemma MarkedBlock(groups: seq<Group>, per: nat, i: nat, o: nat, x: int)
    requires per >= 1 && i < |groups| && o < per && o < |groups[i].bits| && !groups[i].bits[o]
    ensures !UsedBlock(groups, per, o + per * i)
    ensures UsedBlock(Marked(groups, i, o, true), per, x) <==> UsedBlock(groups, per, x) || x == o + per * i
  {
    Spot(o + per * i, per, i, o);
    Spot(x, per, i, o);
    if 0 <= x { MarkedBit(groups, i, o, x / per, x % per); }
  }

  /** after has exactly the blocks of groups marked, and those of taken. */
  ghost predicate Took(groups: seq<Group>, after: seq<Group>, per: nat, taken: seq<int>)
    requires per >= 1
  {
    forall x :: UsedBlock(after, per, x) <==> UsedBlock(groups, per, x) || x in taken
  }

  lemma MarkedTook(groups: seq<Group>, per: nat, i: nat, o: nat, b: int)
    requires per >= 1 && i < |groups| && o < per && o < |groups[i].bits| && !groups[i].bits[o] && b == o + per * i
    ensures !UsedBlock(groups, per, b) && Took(groups, Marked(groups, i, o, true), per, [b])
  {
    MarkedBlock(groups, per, i, o, b);
    forall x ensures UsedBlock(Marked(groups, i, o, true), per, x) <==> UsedBlock(groups, per, x) || x in [b] { MarkedBlock(groups, per, i, o, x); }
  }

  lemma {:induction false} SomeFree(groups: seq<Group>)
    requires FreeSum(groups) > 0
    ensures HasFree(groups)
  {
    if groups[0].free <= 0 {
      SomeFree(groups[1..]);
      var k :| 0 <= k < |groups| - 1 && groups[1..][k].free > 0;
      assert groups[k + 1].free > 0;
    }
  }

  /** One call of ext2_alloc_block. */
  method NextBlock(groups: seq<Group>, ghost total: int, per: nat) returns (b: int, after: seq<Group>)
    requires Consistent(groups, total, per) && total > 0
    ensures Consistent(after, total - 1, per) && !UsedBlock(groups, per, b) && Took(groups, after, per, [b])
  {
    SomeFree(groups);
    var found, i, o;
    found, i, o, after := TakeBit(groups, total, per);
    b := o + per * i;
    MarkedTook(groups, per, i, o, b);
  }

  lemma TookMore(g0: seq<Group>, g1: seq<Group>, g2: seq<Group>, per: nat, taken: seq<int>, b: int, more: seq<int>)
    requires per >= 1 && Took(g0, g1, per, taken) && Took(g1, g2, per, [b]) && !UsedBlock(g1, per, b) && more == taken + [b]
    ensures Took(g0, g2, per, more) && !UsedBlock(g0, per, b) && b !in taken
  {
  }

  /** The blocks that the next three calls return, and the bitmaps after none, one, two and three of them. */
  method NextThree(groups: seq<Group>, ghost total: int, per: nat) returns (alloc: seq<int>, after: seq<seq<Group>>)
    requires Consistent(groups, total, per) && total >= 3
    ensures |alloc| == 3 && |after| == 4 && after[0] == groups && per >= 1
    ensures forall k :: 0 <= k <= 3 ==> Consistent(after[k], total - k, per) && Took(groups, after[k], per, alloc[..k])
    ensures forall k :: 0 <= k < 3 ==> !UsedBlock(groups, per, alloc[k])
    ensures forall i, j :: 0 <= i < j < 3 ==> alloc[i] != alloc[j]
  {
    alloc, after := [], [groups];
    while |alloc| < 3
      invariant |alloc| <= 3 && |after| == |alloc| + 1 && after[0] == groups
      invariant forall k :: 0 <= k <= |alloc| ==> Consistent(after[k], total - k, per) && Took(groups, after[k], per, alloc[..k])
      invariant forall k :: 0 <= k < |alloc| ==> !UsedBlock(groups, per, alloc[k])
      invariant forall i, j :: 0 <= i < j < |alloc| ==> alloc[i] != alloc[j]
    {
      ghost var k := |alloc|;
      var b, g := NextBlock(after[|alloc|], total - k, per);
      assert alloc[..k] == alloc;
      TookMore(groups, after[k], g, per, alloc, b, alloc + [b]);
      ghost var was := alloc;
      alloc, after := alloc + [b], after + [g];
      assert alloc[..k + 1] == alloc && forall l :: 0 <= l <= k ==> alloc[..l] == was[..l];
    }
  }

  // ----- The update -----

  /** What the bitmaps say is what mapping a block needs. */
  lemma DerivedFresh(disk: Disk, iblock: seq<int>, n: nat, groups: seq<Group>, total: int, per: nat, alloc: seq<int>)
    requires Ledger(disk, iblock, n, groups, total, per) && |alloc| == 3 && forall i, j :: 0 <= i < j < 3 ==> alloc[i] != alloc[j]
    requires forall k :: 0 <= k < 3 ==> !UsedBlock(groups, per, alloc[k])
    ensures FreshFor(disk, iblock, n, alloc)
  {
    forall d | 1 <= d <= 3 ensures FreshPool(disk, n, iblock[Top(d)], d, alloc) {
      forall i | 0 <= i < 3 ensures alloc[i] != 0 && !InTree(disk, n, iblock[Top(d)], d, alloc[i]) && ZeroFilled(disk, n, alloc[i]) {}
    }
  }

  /** What is left over of the blocks handed out. */
  function LeftOver(disk: Disk, iblock: seq<int>, n: nat, b: nat, val: int, pool: seq<int>): seq<int>
    requires n >= 1 && |iblock| == 15 && b < TripleEnd(n) && |pool| >= 3
  {
    Mapped(disk, iblock, n, b, val, pool).2
  }

  /** Block x is in none of the inode's trees and as it was. */
  ghost predicate Untouched(disk: Disk, disk': Disk, iblock: seq<int>, n: nat, x: int)
    requires |iblock| == 15
  {
    Blk(disk', n, x) == Blk(disk, n, x) && forall e :: 1 <= e <= 3 ==> !InTree(disk', n, iblock[Top(e)], e, x)
  }

  /** The blocks handed out and not used are the last ones, are in no tree and still hold zeros. */
  lemma MappedUses(disk: Disk, iblock: seq<int>, n: nat, b: nat, val: int, pool: seq<int>, x: int)
    requires n >= 1 && |iblock| == 15 && |pool| >= 3 && b < TripleEnd(n) && InodeOk(disk, iblock, n) && FreshFor(disk, iblock, n, pool)
    ensures var rest := LeftOver(disk, iblock, n, b, val, pool); |rest| <= |pool| && rest == pool[|pool| - |rest|..]
    ensures x in LeftOver(disk, iblock, n, b, val, pool) ==>
              Untouched(disk, Mapped(disk, iblock, n, b, val, pool).0, Mapped(disk, iblock, n, b, val, pool).1, n, x)
  {
    RegionFits(n, b);
    var (d, i) := Region(n, b);
    var (disk', iblock', rest) := Mapped(disk, iblock, n, b, val, pool);
    if d == 0 {
      forall e | 1 <= e <= 3 && x in pool ensures !InTree(disk', n, iblock'[Top(e)], e, x) { assert FreshPool(disk, n, iblock[Top(e)], e, pool); }
    } else {
      assert RegionOk(disk, n, iblock[Top(d)], d, pool);
      RegionUses(disk, n, iblock[Top(d)], d, i, val, pool, x);
      forall e | 1 <= e <= 3 && x in rest ensures !InTree(disk', n, iblock'[Top(e)], e, x) {
        if e != d {
          assert x in pool && FreshPool(disk, n, iblock[Top(e)], e, pool);
          TreeAfter(disk, iblock, n, b, val, pool, e, x);
        }
      }
    }
  }

  /** Blocks outside all trees that were not handed out are not written. */
  lemma MappedFrame(disk: Disk, iblock: seq<int>, n: nat, b: nat, val: int, pool: seq<int>, x: int)
    requires InodeOk(disk, iblock, n) && FreshFor(disk, iblock, n, pool) && b < TripleEnd(n) && x !in pool
    requires forall d :: 1 <= d <= 3 ==> !InTree(disk, n, iblock[Top(d)], d, x)
    ensures Blk(Mapped(disk, iblock, n, b, val, pool).0, n, x) == Blk(disk, n, x)
  {
    RegionFits(n, b);
    var (d, i) := Region(n, b);
    if d > 0 {
      assert RegionOk(disk, n, iblock[Top(d)], d, pool);
      RegionFrame(disk, n, iblock[Top(d)], d, i, val, pool, x);
    }
  }

  /** x is one of the inode's index blocks. */
  ghost predicate IndexBlock(disk: Disk, iblock: seq<int>, n: nat, x: int)
    requires |iblock| == 15
  {
    InTree(disk, n, iblock[12], 1, x) || InTree(disk, n, iblock[13], 2, x) || InTree(disk, n, iblock[14], 3, x)
  }

  lemma IndexBlockTree(disk: Disk, iblock: seq<int>, n: nat, d: nat, x: int)
    requires |iblock| == 15
    ensures 1 <= d <= 3 && InTree(disk, n, iblock[Top(d)], d, x) ==> IndexBlock(disk, iblock, n, x)
    ensures IndexBlock(disk, iblock, n, x) ==> exists e :: 1 <= e <= 3 && InTree(disk, n, iblock[Top(e)], e, x)
  {
    assert Top(1) == 12 && Top(2) == 13 && Top(3) == 14;
    assert InTree(disk, n, iblock[12], 1, x) ==> InTree(disk, n, iblock[Top(1)], 1, x);
    assert InTree(disk, n, iblock[13], 2, x) ==> InTree(disk, n, iblock[Top(2)], 2, x);
    assert InTree(disk, n, iblock[14], 3, x) ==> InTree(disk, n, iblock[Top(3)], 3, x);
  }

  /** Every block handed out and not left over is an index block of the inode. */
  lemma TakenInTree(disk: Disk, iblock: seq<int>, n: nat, b: nat, val: int, pool: seq<int>, x: int)
    requires n >= 1 && |iblock| == 15 && |pool| >= 3 && b < TripleEnd(n) && InodeOk(disk, iblock, n) && FreshFor(disk, iblock, n, pool)
    requires x in pool && x !in LeftOver(disk, iblock, n, b, val, pool)
    ensures IndexBlock(Mapped(disk, iblock, n, b, val, pool).0, Mapped(disk, iblock, n, b, val, pool).1, n, x)
  {
    RegionFits(n, b);
    var (d, i) := Region(n, b);
    assert d > 0 && RegionOk(disk, n, iblock[Top(d)], d, pool);
    RegionLosesNone(disk, n, iblock[Top(d)], d, i, val, pool, x);
    IndexBlockTree(Mapped(disk, iblock, n, b, val, pool).0, Mapped(disk, iblock, n, b, val, pool).1, n, d, x);
  }

  /** No block is marked but for an index block of the inode: none leaks. */
  lemma NoneLeaks(disk: Disk, iblock: seq<int>, n: nat, groups: seq<Group>, total: int, per: nat, b: nat, val: int,
                  alloc: seq<int>, after: seq<Group>, k: nat, x: int)
    requires Ledger(disk, iblock, n, groups, total, per) && b < TripleEnd(n) && |alloc| == 3 && FreshFor(disk, iblock, n, alloc)
    requires k == 3 - |LeftOver(disk, iblock, n, b, val, alloc)| && k <= 3 && Took(groups, after, per, alloc[..k])
    requires Ledger(Mapped(disk, iblock, n, b, val, alloc).0, Mapped(disk, iblock, n, b, val, alloc).1, n, after, total - k, per)
    ensures UsedBlock(after, per, x) <==>
              UsedBlock(groups, per, x) || IndexBlock(Mapped(disk, iblock, n, b, val, alloc).0, Mapped(disk, iblock, n, b, val, alloc).1, n, x)
  {
    if x in alloc[..k] {
      MappedUses(disk, iblock, n, b, val, alloc, x);
      assert FreshPool(disk, n, iblock[Top(1)], 1, alloc);
      Apart(alloc, k, x);
      TakenInTree(disk, iblock, n, b, val, alloc, x);
    }
    IndexBlockTree(Mapped(disk, iblock, n, b, val, alloc).0, Mapped(disk, iblock, n, b, val, alloc).1, n, 0, x);
  }

  lemma Apart(s: seq<int>, k: nat, x: int)
    requires k <= |s| && x in s[..k] && forall i, j :: 0 <= i < j < |s| ==> s[i] != s[j]
    ensures x in s && x !in s[k..]
  {
  }

  /** Mapping a block with what ext2_alloc_block hands out keeps the books. */
  lemma LedgerKept(disk: Disk, iblock: seq<int>, n: nat, groups: seq<Group>, total: int, per: nat, b: nat, val: int,
                   alloc: seq<int>, after: seq<Group>, k: nat)
    requires Ledger(disk, iblock, n, groups, total, per) && b < TripleEnd(n) && |alloc| == 3 && FreshFor(disk, iblock, n, alloc)
    requires k == 3 - |LeftOver(disk, iblock, n, b, val, alloc)| && k <= 3
    requires Consistent(after, total - k, per) && Took(groups, after, per, alloc[..k])
    ensures var (disk', iblock', rest) := Mapped(disk, iblock, n, b, val, alloc); Ledger(disk', iblock', n, after, total - k, per)
  {
    var (disk', iblock', rest) := Mapped(disk, iblock, n, b, val, alloc);
    MapKeepsOk(disk, iblock, n, b, val, alloc);
    forall d, x | 1 <= d <= 3 && InTree(disk', n, iblock'[Top(d)], d, x) ensures UsedBlock(after, per, x) {
      GrownMarked(disk, iblock, n, groups, total, per, b, val, alloc, after, k, d, x);
    }
    forall x | !UsedBlock(after, per, x) ensures x != 0 && ZeroFilled(disk', n, x) {
      FreeStaysZero(disk, iblock, n, groups, total, per, b, val, alloc, after, k, x);
    }
  }

  lemma TakenOrLeft(alloc: seq<int>, k: nat, x: int)
    requires k <= |alloc| && x in alloc
    ensures x in alloc[..k] || x in alloc[k..]
  {
    assert alloc == alloc[..k] + alloc[k..];
  }

  lemma GrownMarked(disk: Disk, iblock: seq<int>, n: nat, groups: seq<Group>, total: int, per: nat, b: nat, val: int,
                    alloc: seq<int>, after: seq<Group>, k: nat, d: nat, x: int)
    requires Ledger(disk, iblock, n, groups, total, per) && b < TripleEnd(n) && |alloc| == 3 && FreshFor(disk, iblock, n, alloc)
    requires k == 3 - |LeftOver(disk, iblock, n, b, val, alloc)| && k <= 3 && Took(groups, after, per, alloc[..k])
    requires 1 <= d <= 3 && InTree(Mapped(disk, iblock, n, b, val, alloc).0, n, Mapped(disk, iblock, n, b, val, alloc).1[Top(d)], d, x)
    ensures UsedBlock(after, per, x)
  {
    TreeAfter(disk, iblock, n, b, val, alloc, d, x);
    MappedUses(disk, iblock, n, b, val, alloc, x);
    if x in alloc { TakenOrLeft(alloc, k, x); }
  }

  lemma FreeStaysZero(disk: Disk, iblock: seq<int>, n: nat, groups: seq<Group>, total: int, per: nat, b: nat, val: int,
                      alloc: seq<int>, after: seq<Group>, k: nat, x: int)
    requires Ledger(disk, iblock, n, groups, total, per) && b < TripleEnd(n) && |alloc| == 3 && FreshFor(disk, iblock, n, alloc)
    requires k == 3 - |LeftOver(disk, iblock, n, b, val, alloc)| && k <= 3 && Took(groups, after, per, alloc[..k])
    requires !UsedBlock(after, per, x)
    ensures x != 0 && ZeroFilled(Mapped(disk, iblock, n, b, val, alloc).0, n, x)
  {
    var disk' := Mapped(disk, iblock, n, b, val, alloc).0;
    assert !UsedBlock(groups, per, x) && x !in alloc[..k];
    MappedUses(disk, iblock, n, b, val, alloc, x);
    if x in alloc {
      TakenOrLeft(alloc, k, x);
    } else {
      MappedFrame(disk, iblock, n, b, val, alloc, x);
    }
    SameZeros(disk, disk', n, x);
  }

  lemma SameZeros(disk: Disk, disk': Disk, n: nat, x: int)
    requires ZeroFilled(disk, n, x) && Blk(disk', n, x) == Blk(disk, n, x)
    ensures ZeroFilled(disk', n, x)
  {
    forall j | 0 <= j < n ensures Child(disk', n, x, j) == 0 { assert Child(disk, n, x, j) == 0; }
  }

  /** An inode whose index blocks are allocated from the bitmaps. */
  class MappedFile {
    var disk: Disk
    var iblock: seq<int>
    var sectors: int
    var groups: seq<Group>
    var total: int
    const n: nat
    const per: nat

    ghost predicate Valid()
      reads this
    {
      Ledger(disk, iblock, n, groups, total, per)
    }

    ghost function At(b: nat): int
      requires Valid() && b < TripleEnd(n)
      reads this
    {
      Lookup(disk, iblock, n, b)
    }

    /** A new inode on an empty disk whose block 0 is in use. */
    constructor (n: nat, count: nat, bits: nat, per: nat)
      requires n >= 1 && 1 <= per <= bits && count >= 1
      ensures Valid() && this.n == n && this.per == per && total == count * per - 1
      ensures forall b :: 0 <= b < TripleEnd(n) ==> At(b) == 0
    {
      var m := new Bitmaps(count, bits, per, 0);
      MarkKeeps(m.groups, m.total, per, 0, 0, true);
      forall x ensures UsedBlock(Marked(m.groups, 0, 0, true), per, x) <==> UsedBlock(m.groups, per, x) || x == 0 {
        MarkedBlock(m.groups, per, 0, 0, x);
      }
      disk, iblock, sectors, this.n, this.per := map[], seq(15, _ => 0), 0, n, per;
      groups := m.groups[0 := Group(m.groups[0].bits[0 := true], m.groups[0].free - 1)];
      total := m.total - 1;
    }

    /** Mapping one logical block: no assumption about the blocks handed out is left but that free blocks hold
        zeros, and that stays so. */
    method Put(blockNo: nat, ptr: int) returns (ret: int)
      requires Valid() && total >= 3
      modifies this
      ensures Valid() && ret == if blockNo < TripleEnd(n) then ptr else -1
      ensures forall b :: 0 <= b < TripleEnd(n) ==> At(b) == if b == blockNo then ptr else old(At(b))
      ensures old(total) - 3 <= total <= old(total)
      ensures if blockNo < TripleEnd(n)
              then forall x :: UsedBlock(groups, per, x) <==> UsedBlock(old(groups), per, x) || IndexBlock(disk, iblock, n, x)
              else groups == old(groups) && total == old(total) && disk == old(disk) && iblock == old(iblock)
    {
      ghost var d0, i0, g0, t0 := disk, iblock, groups, total;
      var alloc, after := NextThree(groups, total, per);
      DerivedFresh(disk, iblock, n, groups, total, per, alloc);
      var rest;
      disk, iblock, sectors, rest, ret := PutRealBlock(disk, iblock, sectors, n, blockNo, ptr, alloc);
      if blockNo < TripleEnd(n) {
        MappedUses(d0, i0, n, blockNo, ptr, alloc, 0);
        groups, total := after[3 - |rest|], total - (3 - |rest|);
        LedgerKept(d0, i0, n, g0, t0, per, blockNo, ptr, alloc, groups, 3 - |rest|);
        forall x ensures UsedBlock(groups, per, x) <==> UsedBlock(g0, per, x) || IndexBlock(disk, iblock, n, x) {
          NoneLeaks(d0, i0, n, g0, t0, per, blockNo, ptr, alloc, groups, 3 - |rest|, x);
        }
        forall b | 0 <= b < TripleEnd(n) ensures Lookup(disk, iblock, n, b) == if b == blockNo then ptr else Lookup(d0, i0, n, b) {
          MapIsUpdate(d0, i0, n, blockNo, ptr, alloc, b);
        }
      }
    }
  }
}
