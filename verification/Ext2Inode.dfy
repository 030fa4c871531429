/** ext2_inode_rw_real_block (Kernel/ext2.c): reading and writing the block map of an inode. */
module Ext2Inode {
  import opened Ext2Map

  const SINGLE := 12
  const DOUBLE := 13
  const TRIPLE := 14

  function SingleEnd(n: nat): nat { DIRECT + n }

  function DoubleEnd(n: nat): nat { SingleEnd(n) + n * n }

  function TripleEnd(n: nat): nat { DoubleEnd(n) + n * n * n }

  lemma SpanIs(n: nat)
    ensures Span(n, 0) == 1 && Span(n, 1) == n && Span(n, 2) == n * n && Span(n, 3) == n * n * n
  {
    assert Span(n, 1) == n * Span(n, 0);
    assert Span(n, 2) == n * Span(n, 1);
    assert Span(n, 3) == n * Span(n, 2);
    assert n * (n * n) == n * n * n;
  }

  /** Depth of the region logical block b falls in (0 for the direct pointers), and its index there. */
  function Region(n: nat, b: nat): (nat, nat)
    requires b < TripleEnd(n)
  {
    if b < DIRECT then (0, b)
    else if b < SingleEnd(n) then (1, b - DIRECT)
    else if b < DoubleEnd(n) then (2, b - SingleEnd(n))
    else (3, b - DoubleEnd(n))
  }

  /** The slot of i_block that holds the top of a region. */
  function Top(depth: nat): nat { SINGLE + depth - 1 }

  lemma RegionFits(n: nat, b: nat)
    requires b < TripleEnd(n)
    ensures var (d, i) := Region(n, b); d <= 3 && (if d == 0 then i == b < DIRECT else i < Span(n, d))
  {
    SpanIs(n);
  }

  /** The disk block that logical block b of the file is mapped to; zero is a hole. */
  function Lookup(disk: Disk, iblock: seq<int>, n: nat, b: nat): int
    requires n >= 1 && |iblock| == 15 && b < TripleEnd(n)
  {
    var (d, i) := Region(n, b);
    if d == 0 then iblock[b] else Read(disk, n, iblock[Top(d)], d, i)
  }

  /** The three trees have no index block in common, and none twice. */
  ghost predicate InodeOk(disk: Disk, iblock: seq<int>, n: nat) {
    && n >= 1 && |iblock| == 15
    && (forall d :: 1 <= d <= 3 ==> Unshared(disk, n, iblock[Top(d)], d))
    && (forall d, e, x :: 1 <= d <= 3 && 1 <= e <= 3 && InTree(disk, n, iblock[Top(d)], d, x) && InTree(disk, n, iblock[Top(e)], e, x) ==> d == e)
  }

  /** What ext2_alloc_block must hand out for index blocks: distinct blocks that are not index blocks of
      the inode yet, and hold zeros. */
  ghost predicate FreshFor(disk: Disk, iblock: seq<int>, n: nat, pool: seq<int>) {
    |iblock| == 15 && |pool| >= 3 && forall d :: 1 <= d <= 3 ==> FreshPool(disk, n, iblock[Top(d)], d, pool)
  }

  /** The state after mapping logical block b to val. */
  function Mapped(disk: Disk, iblock: seq<int>, n: nat, b: nat, val: int, pool: seq<int>): (Disk, seq<int>, seq<int>)
    requires n >= 1 && |iblock| == 15 && b < TripleEnd(n) && |pool| >= 3
  {
    RegionFits(n, b);
    var (d, i) := Region(n, b);
    if d == 0 then (disk, iblock[b := val], pool)
    else
      var (root, disk', pool') := WriteRegion(disk, n, iblock[Top(d)], d, i, val, pool);
      (disk', iblock[Top(d) := root], pool')
  }

  /** The trees of the other regions are untouched. */
  lemma OtherRegion(disk: Disk, iblock: seq<int>, n: nat, d: nat, i: nat, val: int, pool: seq<int>, e: nat)
    requires InodeOk(disk, iblock, n) && FreshFor(disk, iblock, n, pool)
    requires 1 <= d <= 3 && 1 <= e <= 3 && d != e && i < Span(n, d)
    ensures SameTree(disk, WriteRegion(disk, n, iblock[Top(d)], d, i, val, pool).1, n, iblock[Top(e)], e)
  {
    var root, disk' := iblock[Top(d)], WriteRegion(disk, n, iblock[Top(d)], d, i, val, pool).1;
    RootReady(disk, n, root, d, pool);
    assert FreshPool(disk, n, iblock[Top(e)], e, pool);
    forall x | InTree(disk, n, iblock[Top(e)], e, x) ensures Blk(disk', n, x) == Blk(disk, n, x) {
      assert x !in pool;
      assert !InTree(disk, n, root, d, x);
      if root == 0 {
        EmptyTree(disk, n, pool[0], d, x);
        assert x !in pool[1..];
        WriteFrame(disk, n, pool[0], d, i, val, pool[1..], x);
      } else {
        WriteFrame(disk, n, root, d, i, val, pool, x);
      }
    }
  }

  /** The block map refines a finite map: after mapping b to val, b reads val, and every other logical
      block in all four regions reads as before. */
  lemma MapIsUpdate(disk: Disk, iblock: seq<int>, n: nat, b: nat, val: int, pool: seq<int>, b2: nat)
    requires InodeOk(disk, iblock, n) && FreshFor(disk, iblock, n, pool) && b < TripleEnd(n) && b2 < TripleEnd(n)
    ensures var (disk', iblock', pool') := Mapped(disk, iblock, n, b, val, pool);
            Lookup(disk', iblock', n, b2) == if b2 == b then val else Lookup(disk, iblock, n, b2)
  {
    RegionFits(n, b);
    RegionFits(n, b2);
    var (d, i) := Region(n, b);
    var (e, i2) := Region(n, b2);
    if d != 0 && e != 0 {
      if d == e {
        assert RegionOk(disk, n, iblock[Top(d)], d, pool);
        RegionUpdate(disk, n, iblock[Top(d)], d, i, val, pool, i2, 0);
      } else {
        OtherRegion(disk, iblock, n, d, i, val, pool, e);
        SameRead(disk, WriteRegion(disk, n, iblock[Top(d)], d, i, val, pool).1, n, iblock[Top(e)], e, i2);
      }
    }
  }

  /** The tree of region e after the update: no sharing, and nothing new but fresh blocks in region d. */
  lemma TreeAfter(disk: Disk, iblock: seq<int>, n: nat, b: nat, val: int, pool: seq<int>, e: nat, x: int)
    requires InodeOk(disk, iblock, n) && FreshFor(disk, iblock, n, pool) && b < TripleEnd(n) && 1 <= e <= 3
    ensures var (disk', iblock', pool') := Mapped(disk, iblock, n, b, val, pool);
            && Unshared(disk', n, iblock'[Top(e)], e)
            && (InTree(disk', n, iblock'[Top(e)], e, x) ==> InTree(disk, n, iblock[Top(e)], e, x) || (e == Region(n, b).0 && x in pool))
  {
    RegionFits(n, b);
    var (d, i) := Region(n, b);
    var (disk', iblock', pool') := Mapped(disk, iblock, n, b, val, pool);
    if d == 0 {
      assert iblock'[Top(e)] == iblock[Top(e)];
    } else if e == d {
      assert RegionOk(disk, n, iblock[Top(d)], d, pool);
      RegionUpdate(disk, n, iblock[Top(d)], d, i, val, pool, i, x);
    } else {
      OtherRegion(disk, iblock, n, d, i, val, pool, e);
      SameMembers(disk, disk', n, iblock[Top(e)], e, x);
      SameUnshared(disk, disk', n, iblock[Top(e)], e);
    }
  }

  /** The trees stay free of sharing, so the map can be updated again. */
  lemma MapKeepsOk(disk: Disk, iblock: seq<int>, n: nat, b: nat, val: int, pool: seq<int>)
    requires InodeOk(disk, iblock, n) && FreshFor(disk, iblock, n, pool) && b < TripleEnd(n)
    ensures var (disk', iblock', pool') := Mapped(disk, iblock, n, b, val, pool); InodeOk(disk', iblock', n)
  {
    var (disk', iblock', pool') := Mapped(disk, iblock, n, b, val, pool);
    forall e | 1 <= e <= 3 ensures Unshared(disk', n, iblock'[Top(e)], e) { TreeAfter(disk, iblock, n, b, val, pool, e, 0); }
    forall d, e, x | 1 <= d <= 3 && 1 <= e <= 3 && InTree(disk', n, iblock'[Top(d)], d, x) && InTree(disk', n, iblock'[Top(e)], e, x)
      ensures d == e
    {
      TreeAfter(disk, iblock, n, b, val, pool, d, x);
      TreeAfter(disk, iblock, n, b, val, pool, e, x);
      assert FreshPool(disk, n, iblock[Top(d)], d, pool) && FreshPool(disk, n, iblock[Top(e)], e, pool);
    }
  }

  // ----- A recycled index block -----

  /** Logical block b lies in an indirect region; the index block that should hold its pointer is missing, those
      above it are there; and the block handed out for it is in none of the inode's trees, but may hold anything. */
  ghost predicate Recycles(disk: Disk, iblock: seq<int>, n: nat, b: nat, pool: seq<int>) {
    && n >= 1 && |iblock| == 15 && |pool| >= 3 && DIRECT <= b < TripleEnd(n) && pool[0] != 0
    && (forall d :: 1 <= d <= 3 ==> !InTree(disk, n, iblock[Top(d)], d, pool[0]))
    && var (d, i) := Region(n, b);
       LastMissing(disk, n, iblock[Top(d)], d, i) && (d > 1 ==> InodeOk(disk, iblock, n))
  }

  /** In the region of b: the pointers in the same index block come from the recycled block. */
  lemma RecycledRegion(disk: Disk, n: nat, root: int, d: nat, i: nat, val: int, pool: seq<int>, k: nat)
    requires n >= 1 && d >= 1 && i < Span(n, d) && k < Span(n, d) && k != i && |pool| >= d
    requires LastMissing(disk, n, root, d, i) && (d > 1 ==> Unshared(disk, n, root, d)) && pool[0] != 0 && !InTree(disk, n, root, d, pool[0])
    ensures var (root', disk', pool') := WriteRegion(disk, n, root, d, i, val, pool);
            Read(disk', n, root', d, k) == if SameLast(n, d, i, k) then Child(disk, n, pool[0], LastSlot(n, d, k)) else Read(disk, n, root, d, k)
  {
    var p := pool[0];
    if d == 1 {
      SlotInRange(n, d, i);
      SlotInRange(n, d, k);
      assert Span(n, 0) == 1 && Slot(n, d, i) == i;
      ReadOne(SetChild(disk, n, p, i, val), n, p, d, k);
      ChildSet(disk, n, p, i, val, p, k);
    } else {
      WriteLast(disk, n, root, d, i, val, pool);
      HungReads(disk, n, root, d, i, val, p, k);
    }
  }

  /** In the other regions: nothing changes. */
  lemma RecycledElsewhere(disk: Disk, iblock: seq<int>, n: nat, b: nat, val: int, pool: seq<int>, e: nat)
    requires Recycles(disk, iblock, n, b, pool) && 1 <= e <= 3 && e != Region(n, b).0
    ensures var (disk', iblock', pool') := Mapped(disk, iblock, n, b, val, pool);
            iblock'[Top(e)] == iblock[Top(e)] && SameTree(disk, disk', n, iblock[Top(e)], e)
  {
    RegionFits(n, b);
    var (d, i) := Region(n, b);
    var root, p := iblock[Top(d)], pool[0];
    var disk' := Mapped(disk, iblock, n, b, val, pool).0;
    if d == 1 {
      SlotInRange(n, d, i);
      forall x | InTree(disk, n, iblock[Top(e)], e, x) ensures Blk(disk', n, x) == Blk(disk, n, x) {
        ChildSet(disk, n, p, Slot(n, d, i), val, x, 0);
      }
    } else {
      WriteLast(disk, n, root, d, i, val, pool);
      ParentInTree(disk, n, root, d, i);
      forall x | InTree(disk, n, iblock[Top(e)], e, x) ensures Blk(disk', n, x) == Blk(disk, n, x) {
        assert x != Parent(disk, n, root, d, i);
        HungChild(disk, n, root, d, i, val, p, x, 0);
      }
    }
  }

  /** Logical block b2 reads as it did before the update. */
  ghost predicate Kept(disk: Disk, iblock: seq<int>, n: nat, b: nat, val: int, pool: seq<int>, b2: nat)
    requires n >= 1 && |iblock| == 15 && b < TripleEnd(n) && |pool| >= 3 && b2 < TripleEnd(n)
  {
    var (disk', iblock', pool') := Mapped(disk, iblock, n, b, val, pool);
    Lookup(disk', iblock', n, b2) == Lookup(disk, iblock, n, b2)
  }

  /** The pointers of b and b2 are in the same index block. */
  ghost predicate SameIndexBlock(n: nat, b: nat, b2: nat)
    requires n >= 1 && DIRECT <= b < TripleEnd(n) && b2 < TripleEnd(n)
  {
    Region(n, b2).0 == Region(n, b).0 && SameLast(n, Region(n, b).0, Region(n, b).1, Region(n, b2).1)
  }

  /** The slot of b in its index block. */
  function SlotOf(n: nat, b: nat): nat
    requires n >= 1 && DIRECT <= b < TripleEnd(n)
  {
    LastSlot(n, Region(n, b).0, Region(n, b).1)
  }

  lemma RecycledKept(disk: Disk, iblock: seq<int>, n: nat, b: nat, val: int, pool: seq<int>, b2: nat)
    requires Recycles(disk, iblock, n, b, pool) && b2 < TripleEnd(n) && b2 != b
    ensures Kept(disk, iblock, n, b, val, pool, b2) <==> (SameIndexBlock(n, b, b2) ==> Child(disk, n, pool[0], SlotOf(n, b2)) == 0)
  {
    RegionFits(n, b);
    RegionFits(n, b2);
    var (d, i) := Region(n, b);
    var (e, k) := Region(n, b2);
    if e == d {
      RecycledRegion(disk, n, iblock[Top(d)], d, i, val, pool, k);
      if SameLast(n, d, i, k) { MissingReads(disk, n, iblock[Top(d)], d, i, k); }
    } else if e > 0 {
      RecycledElsewhere(disk, iblock, n, b, val, pool, e);
      SameRead(disk, Mapped(disk, iblock, n, b, val, pool).0, n, iblock[Top(e)], e, k);
    }
  }

  /** Every slot of the index block of b belongs to some logical block. */
  lemma SlotOwner(n: nat, b: nat, j: nat) returns (b2: nat)
    requires n >= 1 && DIRECT <= b < TripleEnd(n) && j < n
    ensures b2 < TripleEnd(n) && DIRECT <= b2 && SameIndexBlock(n, b, b2) && SlotOf(n, b2) == j && (b2 == b <==> j == SlotOf(n, b))
  {
    RegionFits(n, b);
    SpanIs(n);
    var (d, i) := Region(n, b);
    var k := Sibling(n, d, i, j);
    SlotsDiffer(n, d, i, k);
    b2 := b - i + k;
  }

  /** Every other logical block reads as before exactly when the recycled block is zero in all slots but
      the one being written; the source does not clear it. */
  lemma RecycledBlockMustBeZero(disk: Disk, iblock: seq<int>, n: nat, b: nat, val: int, pool: seq<int>)
    requires Recycles(disk, iblock, n, b, pool)
    ensures (forall b2 :: 0 <= b2 < TripleEnd(n) && b2 != b ==> Kept(disk, iblock, n, b, val, pool, b2))
            <==> (forall j :: 0 <= j < n && j != SlotOf(n, b) ==> Child(disk, n, pool[0], j) == 0)
  {
    if forall b2 :: 0 <= b2 < TripleEnd(n) && b2 != b ==> Kept(disk, iblock, n, b, val, pool, b2) {
      forall j | 0 <= j < n && j != SlotOf(n, b) ensures Child(disk, n, pool[0], j) == 0 {
        var b2 := SlotOwner(n, b, j);
        assert Kept(disk, iblock, n, b, val, pool, b2);
        RecycledKept(disk, iblock, n, b, val, pool, b2);
      }
    }
    if forall j :: 0 <= j < n && j != SlotOf(n, b) ==> Child(disk, n, pool[0], j) == 0 {
      forall b2 | 0 <= b2 < TripleEnd(n) && b2 != b ensures Kept(disk, iblock, n, b, val, pool, b2) {
        RecycledKept(disk, iblock, n, b, val, pool, b2);
        if SameIndexBlock(n, b, b2) { SlotsInBlock(n, b, b2); }
      }
    }
  }

  lemma SlotsInBlock(n: nat, b: nat, b2: nat)
    requires n >= 1 && DIRECT <= b < TripleEnd(n) && b2 < TripleEnd(n) && b2 != b && SameIndexBlock(n, b, b2)
    ensures DIRECT <= b2 && SlotOf(n, b2) < n && SlotOf(n, b2) != SlotOf(n, b)
  {
    RegionFits(n, b);
    RegionFits(n, b2);
    var (d, i) := Region(n, b);
    var (e, k) := Region(n, b2);
    LastInRange(n, d, k);
    SlotsDiffer(n, d, i, k);
  }

  /** An empty inode, blocks of two pointers, and a recycled block 7 that holds 5 and 6: mapping logical block 12
      makes logical block 13, a hole until then, read 6. */
  lemma RecycledGarbage(disk: Disk, iblock: seq<int>, pool: seq<int>)
    requires disk == map[7 := [5, 6]] && iblock == seq(15, _ => 0) && pool == [7, 8, 9]
    ensures Recycles(disk, iblock, 2, 12, pool) && Lookup(disk, iblock, 2, 13) == 0 && !Kept(disk, iblock, 2, 12, 1, pool, 13)
  {
    assert Region(2, 12) == (1, 0) && Region(2, 13) == (1, 1);
    RecycledKept(disk, iblock, 2, 12, 1, pool, 13);
  }

  // ----- The routine itself -----

  /** The divisions of the source are the slots of the tree. */
  lemma SlotsOfDouble(n: nat, a: nat)
    requires n >= 1 && a < n * n
    ensures var b := a / n; var c := a - b * n;
            && 0 <= b < n && 0 <= c < n && Slot(n, 2, a) == b && Rest(n, 2, a) == c && Slot(n, 1, c) == c && c == a % n
  {
    SpanIs(n);
    SlotInRange(n, 2, a);
    SlotInRange(n, 1, Rest(n, 2, a));
  }

  lemma SlotsOfTriple(n: nat, a: nat)
    requires n >= 1 && a < n * n * n
    ensures var b := a / (n * n); var c := a - b * n * n;
            && 0 <= b < n && 0 <= c < n * n && Slot(n, 3, a) == b && Rest(n, 3, a) == c && c == a % (n * n)
  {
    SpanIs(n);
    SlotInRange(n, 3, a);
    assert (a / (n * n)) * (n * n) == (a / (n * n)) * n * n;
  }

  /** Reading the map (mode 0): a block past the last region is refused. The last four clauses say where each
      pointer lies: direct, or through slot 12, 13 or 14 of i_block and one, two or three index blocks, any of which
      may be missing. */
  method GetRealBlock(disk: Disk, iblock: seq<int>, n: nat, blockNo: nat) returns (ptr: int)
    requires n >= 1 && |iblock| == 15
    ensures ptr == if blockNo < TripleEnd(n) then Lookup(disk, iblock, n, blockNo) else -1
    ensures blockNo >= 12 + n + n * n + n * n * n <==> blockNo >= TripleEnd(n)
    ensures blockNo < 12 ==> ptr == iblock[blockNo]
    ensures 12 <= blockNo < 12 + n ==> ptr == if iblock[12] == 0 then 0 else Blk(disk, n, iblock[12])[blockNo - 12]
    ensures 12 + n <= blockNo < 12 + n + n * n ==>
              var a := blockNo - 12 - n;
              && 0 <= a / n < n && 0 <= a % n < n
              && var s := if iblock[13] == 0 then 0 else Blk(disk, n, iblock[13])[a / n];
                 ptr == if s == 0 then 0 else Blk(disk, n, s)[a % n]
    ensures 12 + n + n * n <= blockNo < 12 + n + n * n + n * n * n ==>
              var a := blockNo - 12 - n - n * n;
              var c := a % (n * n);
              && 0 <= a / (n * n) < n && 0 <= c / n < n && 0 <= c % n < n
              && var s := if iblock[14] == 0 then 0 else Blk(disk, n, iblock[14])[a / (n * n)];
                 var t := if s == 0 then 0 else Blk(disk, n, s)[c / n];
                 ptr == if t == 0 then 0 else Blk(disk, n, t)[c % n]
  {
    if blockNo < DIRECT {
      return iblock[blockNo];
    } else if blockNo < SingleEnd(n) {
      ptr := GetSingle(disk, iblock, n, blockNo);
    } else if blockNo < DoubleEnd(n) {
      ptr := GetDouble(disk, iblock, n, blockNo);
    } else if blockNo < TripleEnd(n) {
      ptr := GetTriple(disk, iblock, n, blockNo);
    } else {
      ptr := -1;
    }
  }

  method GetSingle(disk: Disk, iblock: seq<int>, n: nat, blockNo: nat) returns (ptr: int)
    requires n >= 1 && |iblock| == 15 && 12 <= blockNo < 12 + n
    ensures ptr == Lookup(disk, iblock, n, blockNo)
    ensures ptr == if iblock[12] == 0 then 0 else Blk(disk, n, iblock[12])[blockNo - 12]
  {
    ReadOne(disk, n, iblock[SINGLE], 1, blockNo - DIRECT);
    if iblock[SINGLE] == 0 { return 0; }
    var tmp := Blk(disk, n, iblock[SINGLE]);
    ptr := tmp[blockNo - DIRECT];
  }

  method GetDouble(disk: Disk, iblock: seq<int>, n: nat, blockNo: nat) returns (ptr: int)
    requires n >= 1 && |iblock| == 15 && 12 + n <= blockNo < 12 + n + n * n
    ensures ptr == Lookup(disk, iblock, n, blockNo)
    ensures var a := blockNo - 12 - n;
            && 0 <= a / n < n && 0 <= a % n < n
            && var s := if iblock[13] == 0 then 0 else Blk(disk, n, iblock[13])[a / n];
               ptr == if s == 0 then 0 else Blk(disk, n, s)[a % n]
  {
    var a := blockNo - SingleEnd(n);
    SlotsOfDouble(n, a);
    var b := a / n;
    var c := a - b * n;
    if iblock[DOUBLE] == 0 { return 0; }
    var tmp := Blk(disk, n, iblock[DOUBLE]);
    var sblock := tmp[b];
    if sblock == 0 { return 0; }
    tmp := Blk(disk, n, sblock);
    ptr := tmp[c];
  }

  method GetTriple(disk: Disk, iblock: seq<int>, n: nat, blockNo: nat) returns (ptr: int)
    requires n >= 1 && |iblock| == 15 && 12 + n + n * n <= blockNo < 12 + n + n * n + n * n * n
    ensures ptr == Lookup(disk, iblock, n, blockNo)
    ensures var a := blockNo - 12 - n - n * n;
            var c := a % (n * n);
            && 0 <= a / (n * n) < n && 0 <= c / n < n && 0 <= c % n < n
            && var s := if iblock[14] == 0 then 0 else Blk(disk, n, iblock[14])[a / (n * n)];
               var t := if s == 0 then 0 else Blk(disk, n, s)[c / n];
               ptr == if t == 0 then 0 else Blk(disk, n, t)[c % n]
  {
    var a := blockNo - DoubleEnd(n);
    SlotsOfTriple(n, a);
    var b := a / (n * n);
    var c := a - b * n * n;
    SlotsOfDouble(n, c);
    var d := c / n;
    var e := c - d * n;
    if iblock[TRIPLE] == 0 { return 0; }
    var tmp := Blk(disk, n, iblock[TRIPLE]);
    var sblock := tmp[b];
    if sblock == 0 { return 0; }
    tmp := Blk(disk, n, sblock);
    var sblock1 := tmp[d];
    if sblock1 == 0 { return 0; }
    tmp := Blk(disk, n, sblock1);
    ptr := tmp[e];
  }

  /** The index block named by an entry; a zero entry makes ext2_alloc_block supply one, whose sectors
      are added to the inode. */
  method EnsureBlock(entry: int, sectors: int, cnt: int, pool: seq<int>) returns (block: int, sectors': int, pool': seq<int>)
    requires pool != []
    ensures if entry == 0 then block == pool[0] && pool' == pool[1..] else block == entry && pool' == pool
    ensures sectors' == sectors + (|pool| - |pool'|) * cnt
  {
    block, sectors', pool' := entry, sectors, pool;
    if entry == 0 {
      block, pool' := pool[0], pool[1..];
      sectors' := sectors + cnt;
    }
  }

  lemma AddUp(x: int, y: int, z: int, cnt: int)
    ensures (x - y) * cnt + (y - z) * cnt == (x - z) * cnt
  {
  }

  method PutSingle(disk: Disk, n: nat, top: int, i: nat, ptr: int, sectors: int, cnt: int, pool: seq<int>)
    returns (root: int, disk': Disk, sectors': int, pool': seq<int>)
    requires n >= 1 && i < n && i < Span(n, 1) && |pool| >= 1
    ensures (root, disk', pool') == WriteRegion(disk, n, top, 1, i, ptr, pool) && root == (if top == 0 then pool[0] else top)
    ensures Blk(disk', n, root)[i] == ptr
    ensures sectors' == sectors + (|pool| - |pool'|) * cnt
  {
    SpanIs(n);
    assert Slot(n, 1, i) == i;
    root, sectors', pool' := EnsureBlock(top, sectors, cnt, pool);
    var tmp := Blk(disk, n, root);
    tmp := tmp[i := ptr];
    disk' := disk[root := tmp];
  }

  method PutDouble(disk: Disk, n: nat, top: int, a: nat, ptr: int, sectors: int, cnt: int, pool: seq<int>)
    returns (root: int, disk': Disk, sectors': int, pool': seq<int>)
    requires n >= 1 && a < n * n && a < Span(n, 2) && |pool| >= 2
    ensures (root, disk', pool') == WriteRegion(disk, n, top, 2, a, ptr, pool) && root == (if top == 0 then pool[0] else top)
    ensures sectors' == sectors + (|pool| - |pool'|) * cnt
  {
    SlotsOfDouble(n, a);
    var b := a / n;
    var c := a - b * n;
    root, sectors', pool' := EnsureBlock(top, sectors, cnt, pool);
    ghost var left := |pool'|;
    disk', sectors', pool' := PutBelow(disk, n, root, b, c, ptr, sectors', cnt, pool', a);
    AddUp(|pool|, left, |pool'|, cnt);
  }

  /** From the block root two levels up: entry b names the block whose entry c is set. */
  method PutBelow(disk: Disk, n: nat, root: int, b: nat, c: nat, ptr: int, sectors: int, cnt: int, pool: seq<int>, ghost a: nat)
    returns (disk': Disk, sectors': int, pool': seq<int>)
    requires n >= 1 && b < n && c < n && |pool| >= 1 && a < Span(n, 2) && Slot(n, 2, a) == b && Rest(n, 2, a) == c && Slot(n, 1, c) == c
    ensures (disk', pool') == Write(disk, n, root, 2, a, ptr, pool)
    ensures sectors' == sectors + (|pool| - |pool'|) * cnt
  {
    SpanIs(n);
    var tmp := Blk(disk, n, root);
    var sblock;
    sblock, sectors', pool' := EnsureBlock(tmp[b], sectors, cnt, pool);
    disk' := disk;
    if tmp[b] == 0 {
      tmp := tmp[b := sblock];
      disk' := disk'[root := tmp];
    }
    tmp := Blk(disk', n, sblock);
    tmp := tmp[c := ptr];
    disk' := disk'[sblock := tmp];
    assert disk' == Write(if Child(disk, n, root, b) == 0 then SetChild(disk, n, root, b, sblock) else disk, n, sblock, 1, c, ptr, pool').0;
  }

  method PutTriple(disk: Disk, n: nat, top: int, a: nat, ptr: int, sectors: int, cnt: int, pool: seq<int>)
    returns (root: int, disk': Disk, sectors': int, pool': seq<int>)
    requires n >= 1 && a < n * n * n && a < Span(n, 3) && |pool| >= 3
    ensures (root, disk', pool') == WriteRegion(disk, n, top, 3, a, ptr, pool) && root == (if top == 0 then pool[0] else top)
    ensures sectors' == sectors + (|pool| - |pool'|) * cnt
  {
    SpanIs(n);
    SlotsOfTriple(n, a);
    var b := a / (n * n);
    var c := a - b * n * n;
    SlotsOfDouble(n, c);
    var d := c / n;
    var e := c - d * n;
    root, sectors', pool' := EnsureBlock(top, sectors, cnt, pool);
    ghost var left := |pool'|;
    disk', sectors', pool' := PutBelow2(disk, n, root, b, d, e, ptr, sectors', cnt, pool', a, c);
    AddUp(|pool|, left, |pool'|, cnt);
  }

  /** From the block root three levels up: entries b, d and e. */
  method PutBelow2(disk: Disk, n: nat, root: int, b: nat, d: nat, e: nat, ptr: int, sectors: int, cnt: int, pool: seq<int>,
                   ghost a: nat, ghost c: nat)
    returns (disk': Disk, sectors': int, pool': seq<int>)
    requires n >= 1 && b < n && d < n && e < n && |pool| >= 2 && a < Span(n, 3) && Slot(n, 3, a) == b && Rest(n, 3, a) == c
    requires c < Span(n, 2) && Slot(n, 2, c) == d && Rest(n, 2, c) == e && Slot(n, 1, e) == e
    ensures (disk', pool') == Write(disk, n, root, 3, a, ptr, pool)
    ensures sectors' == sectors + (|pool| - |pool'|) * cnt
  {
    var tmp := Blk(disk, n, root);
    var sblock;
    sblock, sectors', pool' := EnsureBlock(tmp[b], sectors, cnt, pool);
    ghost var left := |pool'|;
    disk' := disk;
    if tmp[b] == 0 {
      tmp := tmp[b := sblock];
      disk' := disk'[root := tmp];
    }
    disk', sectors', pool' := PutBelow(disk', n, sblock, d, e, ptr, sectors', cnt, pool', c);
    AddUp(|pool|, left, |pool'|, cnt);
  }

  /** Of the slots of i_block only slot k may have changed, from 0 to the first block handed out. */
  ghost predicate Topped(iblock: seq<int>, iblock': seq<int>, k: nat, p: int)
    requires k < |iblock|
  {
    iblock' == if iblock[k] == 0 then iblock[k := p] else iblock
  }

  /** Writing the map (mode 1). alloc lists the blocks ext2_alloc_block returns, in order; each one used
      as an index block adds its sectors to the inode. */
  method PutRealBlock(disk: Disk, iblock: seq<int>, sectors: int, n: nat, blockNo: nat, ptr: int, alloc: seq<int>)
    returns (disk': Disk, iblock': seq<int>, sectors': int, pool: seq<int>, ret: int)
    requires n >= 1 && |iblock| == 15 && |alloc| >= 3
    ensures blockNo >= TripleEnd(n) ==> ret == -1 && disk' == disk && iblock' == iblock && pool == alloc
    ensures blockNo < TripleEnd(n) ==> ret == ptr && (disk', iblock', pool) == Mapped(disk, iblock, n, blockNo, ptr, alloc)
    ensures sectors' == sectors + (|alloc| - |pool|) * (4 * n / 512)
    ensures blockNo < 12 ==> iblock' == iblock[blockNo := ptr] && disk' == disk && pool == alloc
    ensures 12 <= blockNo < 12 + n ==> Topped(iblock, iblock', 12, alloc[0]) && Blk(disk', n, iblock'[12])[blockNo - 12] == ptr
    ensures 12 + n <= blockNo < 12 + n + n * n ==> Topped(iblock, iblock', 13, alloc[0])
    ensures 12 + n + n * n <= blockNo < 12 + n + n * n + n * n * n ==> Topped(iblock, iblock', 14, alloc[0])
  {
    disk', iblock', sectors', pool, ret := disk, iblock, sectors, alloc, ptr;
    if blockNo < DIRECT {
      iblock' := iblock[blockNo := ptr];
    } else if blockNo < TripleEnd(n) {
      disk', iblock', sectors', pool := PutIndirect(disk, iblock, sectors, 4 * n / 512, n, blockNo, ptr, alloc);
    } else {
      ret := -1;
    }
  }

  /** The three regions with index blocks. */
  method PutIndirect(disk: Disk, iblock: seq<int>, sectors: int, cnt: int, n: nat, blockNo: nat, ptr: int, alloc: seq<int>)
    returns (disk': Disk, iblock': seq<int>, sectors': int, pool: seq<int>)
    requires n >= 1 && |iblock| == 15 && |alloc| >= 3 && DIRECT <= blockNo < TripleEnd(n)
    ensures (disk', iblock', pool) == Mapped(disk, iblock, n, blockNo, ptr, alloc)
    ensures sectors' == sectors + (|alloc| - |pool|) * cnt
    ensures blockNo < 12 + n ==> Topped(iblock, iblock', 12, alloc[0]) && Blk(disk', n, iblock'[12])[blockNo - 12] == ptr
    ensures 12 + n <= blockNo < 12 + n + n * n ==> Topped(iblock, iblock', 13, alloc[0])
    ensures 12 + n + n * n <= blockNo ==> Topped(iblock, iblock', 14, alloc[0])
  {
    if blockNo < SingleEnd(n) {
      disk', iblock', sectors', pool := PutInSingle(disk, iblock, sectors, cnt, n, blockNo, ptr, alloc);
    } else if blockNo < DoubleEnd(n) {
      disk', iblock', sectors', pool := PutInDouble(disk, iblock, sectors, cnt, n, blockNo, ptr, alloc);
    } else {
      disk', iblock', sectors', pool := PutInTriple(disk, iblock, sectors, cnt, n, blockNo, ptr, alloc);
    }
  }

  method PutInSingle(disk: Disk, iblock: seq<int>, sectors: int, cnt: int, n: nat, blockNo: nat, ptr: int, alloc: seq<int>)
    returns (disk': Disk, iblock': seq<int>, sectors': int, pool: seq<int>)
    requires n >= 1 && |iblock| == 15 && |alloc| >= 3 && 12 <= blockNo < 12 + n
    ensures (disk', iblock', pool) == Mapped(disk, iblock, n, blockNo, ptr, alloc)
    ensures sectors' == sectors + (|alloc| - |pool|) * cnt && Topped(iblock, iblock', 12, alloc[0])
    ensures Blk(disk', n, iblock'[12])[blockNo - 12] == ptr
  {
    var root;
    assert Region(n, blockNo) == (1, blockNo - DIRECT);
    RegionFits(n, blockNo);
    root, disk', sectors', pool := PutSingle(disk, n, iblock[SINGLE], blockNo - DIRECT, ptr, sectors, cnt, alloc);
    iblock' := iblock[SINGLE := root];
  }

  method PutInDouble(disk: Disk, iblock: seq<int>, sectors: int, cnt: int, n: nat, blockNo: nat, ptr: int, alloc: seq<int>)
    returns (disk': Disk, iblock': seq<int>, sectors': int, pool: seq<int>)
    requires n >= 1 && |iblock| == 15 && |alloc| >= 3 && 12 + n <= blockNo < 12 + n + n * n
    ensures (disk', iblock', pool) == Mapped(disk, iblock, n, blockNo, ptr, alloc)
    ensures sectors' == sectors + (|alloc| - |pool|) * cnt && Topped(iblock, iblock', 13, alloc[0])
  {
    var root;
    RegionFits(n, blockNo);
    root, disk', sectors', pool := PutDouble(disk, n, iblock[DOUBLE], blockNo - SingleEnd(n), ptr, sectors, cnt, alloc);
    iblock' := iblock[DOUBLE := root];
  }

  method PutInTriple(disk: Disk, iblock: seq<int>, sectors: int, cnt: int, n: nat, blockNo: nat, ptr: int, alloc: seq<int>)
    returns (disk': Disk, iblock': seq<int>, sectors': int, pool: seq<int>)
    requires n >= 1 && |iblock| == 15 && |alloc| >= 3 && 12 + n + n * n <= blockNo < 12 + n + n * n + n * n * n
    ensures (disk', iblock', pool) == Mapped(disk, iblock, n, blockNo, ptr, alloc)
    ensures sectors' == sectors + (|alloc| - |pool|) * cnt && Topped(iblock, iblock', 14, alloc[0])
  {
    var root;
    RegionFits(n, blockNo);
    root, disk', sectors', pool := PutTriple(disk, n, iblock[TRIPLE], blockNo - DoubleEnd(n), ptr, sectors, cnt, alloc);
    iblock' := iblock[TRIPLE := root];
  }

  /** An inode's block map, updated in place. */
  class BlockMap {
    var disk: Disk
    var iblock: seq<int>
    var sectors: int
    const n: nat

    ghost predicate Valid()
      reads this
    {
      InodeOk(disk, iblock, n)
    }

    /** An inode without blocks, on an empty disk. */
    constructor (n: nat)
      requires n >= 1
      ensures Valid() && this.n == n && sectors == 0 && forall b :: 0 <= b < TripleEnd(n) ==> At(b) == 0
    {
      disk, iblock, sectors, this.n := map[], seq(15, _ => 0), 0, n;
    }

    ghost function At(b: nat): int
      requires Valid() && b < TripleEnd(n)
      reads this
    {
      Lookup(disk, iblock, n, b)
    }

    method Put(blockNo: nat, ptr: int, alloc: seq<int>) returns (ret: int)
      requires Valid() && FreshFor(disk, iblock, n, alloc)
      modifies this
      ensures Valid() && ret == if blockNo < TripleEnd(n) then ptr else -1
      ensures forall b :: 0 <= b < TripleEnd(n) ==> At(b) == if b == blockNo then ptr else old(At(b))
    {
      ghost var d0, i0 := disk, iblock;
      var pool;
      disk, iblock, sectors, pool, ret := PutRealBlock(disk, iblock, sectors, n, blockNo, ptr, alloc);
      if blockNo < TripleEnd(n) {
        MapKeepsOk(d0, i0, n, blockNo, ptr, alloc);
        forall b | 0 <= b < TripleEnd(n) ensures Lookup(disk, iblock, n, b) == if b == blockNo then ptr else Lookup(d0, i0, n, b) {
          MapIsUpdate(d0, i0, n, blockNo, ptr, alloc, b);
        }
      }
    }

    method Get(blockNo: nat) returns (ptr: int)
      requires Valid()
      ensures ptr == if blockNo < TripleEnd(n) then At(blockNo) else -1
    {
      ptr := GetRealBlock(disk, iblock, n, blockNo);
    }
  }
}
