/** The inode block map of Kernel/ext2.c: 12 direct pointers, then trees of index blocks of depth one,
    two and three. */
module Ext2Map {
  import opened Arith

  /** Block number to the n pointers it holds. */
  type Disk = map<int, seq<int>>

  const DIRECT := 12

  /** n pointers per block (blksize >> 2); a block never written holds zeros. */
  function Blk(disk: Disk, n: nat, x: int): (s: seq<int>)
    ensures |s| == n
  {
    if x in disk && |disk[x]| == n then disk[x] else seq(n, _ => 0)
  }

  function Span(n: nat, depth: nat): (r: nat)
    ensures n >= 1 ==> r >= 1
  {
    if depth == 0 then 1 else n * Span(n, depth - 1)
  }

  /** The slot of the root, and the rest of the index below it. */
  function Slot(n: nat, depth: nat, i: nat): int
    requires n >= 1 && depth >= 1
  {
    i / Span(n, depth - 1)
  }

  function Rest(n: nat, depth: nat, i: nat): (r: nat)
    requires n >= 1 && depth >= 1
  {
    i % Span(n, depth - 1)
  }

  lemma SlotInRange(n: nat, depth: nat, i: nat)
    requires n >= 1 && depth >= 1 && i < Span(n, depth)
    ensures 0 <= Slot(n, depth, i) < n && Rest(n, depth, i) < Span(n, depth - 1)
    ensures i == Slot(n, depth, i) * Span(n, depth - 1) + Rest(n, depth, i)
  {
    var p := Span(n, depth - 1);
    QuotientBound(i, p, n);
  }

  /** The j-th pointer in block root. */
  function Child(disk: Disk, n: nat, root: int, j: int): int {
    if 0 <= j < n then Blk(disk, n, root)[j] else 0
  }

  /** disk with the j-th pointer of block root replaced. */
  function SetChild(disk: Disk, n: nat, root: int, j: int, v: int): Disk
    requires 0 <= j < n
  {
    disk[root := Blk(disk, n, root)[j := v]]
  }

  lemma ChildSet(disk: Disk, n: nat, root: int, j: int, v: int, x: int, k: int)
    requires 0 <= j < n
    ensures Child(SetChild(disk, n, root, j, v), n, x, k) == if x == root && k == j then v else Child(disk, n, x, k)
    ensures x != root ==> Blk(SetChild(disk, n, root, j, v), n, x) == Blk(disk, n, x)
  {
  }

  /** The pointer at index i of the tree of the given depth; a missing index block is a hole. */
  function Read(disk: Disk, n: nat, root: int, depth: nat, i: nat): int
    requires n >= 1
    decreases depth
  {
    if depth == 0 then root
    else if root == 0 then 0
    else Read(disk, n, Child(disk, n, root, Slot(n, depth, i)), depth - 1, Rest(n, depth, i))
  }

  /** Store val at index i below the existing index block root; missing index blocks on the way are
      taken from pool, the numbers ext2_alloc_block hands out. */
  function Write(disk: Disk, n: nat, root: int, depth: nat, i: nat, val: int, pool: seq<int>): (Disk, seq<int>)
    requires n >= 1 && depth >= 1 && i < Span(n, depth) && |pool| >= depth - 1
    decreases depth
  {
    SlotInRange(n, depth, i);
    var j := Slot(n, depth, i);
    if depth == 1 then (SetChild(disk, n, root, j, val), pool)
    else if Child(disk, n, root, j) == 0 then
      Write(SetChild(disk, n, root, j, pool[0]), n, pool[0], depth - 1, Rest(n, depth, i), val, pool[1..])
    else
      Write(disk, n, Child(disk, n, root, j), depth - 1, Rest(n, depth, i), val, pool)
  }

  /** x is an index block of the tree. */
  ghost predicate InTree(disk: Disk, n: nat, root: int, depth: nat, x: int)
    decreases depth, 1
  {
    depth > 0 && root != 0 && (x == root || exists j :: 0 <= j < n && InBranch(disk, n, root, depth, j, x))
  }

  /** x is an index block below the j-th pointer of the root. */
  ghost predicate InBranch(disk: Disk, n: nat, root: int, depth: nat, j: int, x: int)
    decreases depth, 0
  {
    depth > 0 && InTree(disk, n, Child(disk, n, root, j), depth - 1, x)
  }

  /** No index block occurs twice in the tree. */
  ghost predicate Unshared(disk: Disk, n: nat, root: int, depth: nat)
    decreases depth, 1
  {
    depth > 0 && root != 0 ==>
      && (forall j :: 0 <= j < n ==> !InBranch(disk, n, root, depth, j, root) && UnsharedBranch(disk, n, root, depth, j))
      && (forall j, k, x :: 0 <= j < n && 0 <= k < n && InBranch(disk, n, root, depth, j, x) && InBranch(disk, n, root, depth, k, x) ==> j == k)
  }

  ghost predicate UnsharedBranch(disk: Disk, n: nat, root: int, depth: nat, j: int)
    decreases depth, 0
  {
    depth > 0 ==> Unshared(disk, n, Child(disk, n, root, j), depth - 1)
  }

  /** All index blocks of the tree are the same on both disks. */
  ghost predicate SameTree(disk: Disk, disk': Disk, n: nat, root: int, depth: nat) {
    forall x :: InTree(disk, n, root, depth, x) ==> Blk(disk', n, x) == Blk(disk, n, x)
  }

  lemma SameBranch(disk: Disk, disk': Disk, n: nat, root: int, depth: nat, j: int)
    requires SameTree(disk, disk', n, root, depth) && depth > 0 && root != 0 && 0 <= j < n
    ensures Child(disk', n, root, j) == Child(disk, n, root, j)
    ensures SameTree(disk, disk', n, Child(disk, n, root, j), depth - 1)
  {
    assert InTree(disk, n, root, depth, root);
    forall x | InTree(disk, n, Child(disk, n, root, j), depth - 1, x) ensures Blk(disk', n, x) == Blk(disk, n, x) {
      assert InBranch(disk, n, root, depth, j, x);
    }
  }

  lemma {:induction false} SameMembers(disk: Disk, disk': Disk, n: nat, root: int, depth: nat, x: int)
    requires SameTree(disk, disk', n, root, depth)
    ensures InTree(disk', n, root, depth, x) <==> InTree(disk, n, root, depth, x)
    decreases depth
  {
    if depth > 0 && root != 0 {
      forall j | 0 <= j < n ensures InBranch(disk', n, root, depth, j, x) <==> InBranch(disk, n, root, depth, j, x) {
        SameBranch(disk, disk', n, root, depth, j);
        SameMembers(disk, disk', n, Child(disk, n, root, j), depth - 1, x);
      }
    }
  }

  lemma {:induction false} SameUnshared(disk: Disk, disk': Disk, n: nat, root: int, depth: nat)
    requires SameTree(disk, disk', n, root, depth) && Unshared(disk, n, root, depth)
    ensures Unshared(disk', n, root, depth)
    decreases depth
  {
    if depth > 0 && root != 0 {
      forall j, x | 0 <= j < n ensures InBranch(disk', n, root, depth, j, x) <==> InBranch(disk, n, root, depth, j, x) {
        SameBranch(disk, disk', n, root, depth, j);
        SameMembers(disk, disk', n, Child(disk, n, root, j), depth - 1, x);
      }
      forall j | 0 <= j < n ensures UnsharedBranch(disk', n, root, depth, j) {
        SameBranch(disk, disk', n, root, depth, j);
        assert UnsharedBranch(disk, n, root, depth, j);
        SameUnshared(disk, disk', n, Child(disk, n, root, j), depth - 1);
      }
    }
  }

  lemma {:induction false} SameRead(disk: Disk, disk': Disk, n: nat, root: int, depth: nat, i: nat)
    requires n >= 1 && i < Span(n, depth) && SameTree(disk, disk', n, root, depth)
    ensures Read(disk', n, root, depth, i) == Read(disk, n, root, depth, i)
    decreases depth
  {
    if depth > 0 && root != 0 {
      SlotInRange(n, depth, i);
      var j := Slot(n, depth, i);
      SameBranch(disk, disk', n, root, depth, j);
      SameRead(disk, disk', n, Child(disk, n, root, j), depth - 1, Rest(n, depth, i));
    }
  }

  // ----- Fresh index blocks -----

  ghost predicate ZeroFilled(disk: Disk, n: nat, p: int) {
    forall j :: 0 <= j < n ==> Child(disk, n, p, j) == 0
  }

  /** The blocks about to be handed out are distinct, not in the tree, and hold zeros. */
  ghost predicate FreshPool(disk: Disk, n: nat, root: int, depth: nat, pool: seq<int>) {
    && (forall i :: 0 <= i < |pool| ==> pool[i] != 0 && !InTree(disk, n, root, depth, pool[i]) && ZeroFilled(disk, n, pool[i]))
    && (forall i, j :: 0 <= i < j < |pool| ==> pool[i] != pool[j])
  }

  ghost predicate Ready(disk: Disk, n: nat, root: int, depth: nat, pool: seq<int>) {
    n >= 1 && depth >= 1 && root != 0 && Unshared(disk, n, root, depth) && FreshPool(disk, n, root, depth, pool)
  }

  lemma EmptyTree(disk: Disk, n: nat, p: int, depth: nat, x: int)
    requires ZeroFilled(disk, n, p) && depth >= 1 && p != 0
    ensures InTree(disk, n, p, depth, x) <==> x == p
    ensures Unshared(disk, n, p, depth)
  {
    forall j, y | 0 <= j < n ensures !InBranch(disk, n, p, depth, j, y) {}
  }

  lemma EmptyRead(disk: Disk, n: nat, p: int, depth: nat, i: nat)
    requires ZeroFilled(disk, n, p) && n >= 1 && depth >= 1 && i < Span(n, depth)
    ensures Read(disk, n, p, depth, i) == 0
  {
    SlotInRange(n, depth, i);
  }

  /** Hanging a fresh index block into an empty slot of an inner index block. */
  lemma HungMembers(disk: Disk, n: nat, root: int, depth: nat, j: int, p: int, x: int)
    requires n >= 1 && depth >= 2 && root != 0 && 0 <= j < n && Child(disk, n, root, j) == 0 && p != 0
    requires Unshared(disk, n, root, depth) && !InTree(disk, n, root, depth, p) && ZeroFilled(disk, n, p)
    ensures var disk' := SetChild(disk, n, root, j, p);
            && (forall k :: 0 <= k < n && k != j ==> SameTree(disk, disk', n, Child(disk, n, root, k), depth - 1))
            && ZeroFilled(disk', n, p)
            && (InTree(disk', n, root, depth, x) <==> InTree(disk, n, root, depth, x) || x == p)
            && (forall k :: 0 <= k < n ==> (InBranch(disk', n, root, depth, k, x) <==> if k == j then x == p else InBranch(disk, n, root, depth, k, x)))
  {
    var disk' := SetChild(disk, n, root, j, p);
    assert InTree(disk, n, root, depth, root);
    forall y, k ensures Child(disk', n, y, k) == (if y == root && k == j then p else Child(disk, n, y, k)) && (y != root ==> Blk(disk', n, y) == Blk(disk, n, y)) {
      ChildSet(disk, n, root, j, p, y, k);
    }
    forall k | 0 <= k < n && k != j ensures SameTree(disk, disk', n, Child(disk, n, root, k), depth - 1) {
      var d, c := depth - 1, Child(disk, n, root, k);
      forall y | InTree(disk, n, c, d, y) ensures y != root { assert InBranch(disk, n, root, depth, k, y); }
    }
    forall k | 0 <= k < n ensures InBranch(disk', n, root, depth, k, x) <==> if k == j then x == p else InBranch(disk, n, root, depth, k, x) {
      if k == j { EmptyTree(disk', n, p, depth - 1, x); } else { SameMembers(disk, disk', n, Child(disk, n, root, k), depth - 1, x); }
    }
    assert !InBranch(disk, n, root, depth, j, x);
  }

  lemma HungReady(disk: Disk, n: nat, root: int, depth: nat, j: int, pool: seq<int>)
    requires Ready(disk, n, root, depth, pool) && depth >= 2 && 0 <= j < n && Child(disk, n, root, j) == 0 && pool != []
    ensures Ready(SetChild(disk, n, root, j, pool[0]), n, root, depth, pool[1..])
  {
    var p := pool[0];
    var disk' := SetChild(disk, n, root, j, p);
    assert InTree(disk, n, root, depth, root);
    forall x, k | 0 <= k < n ensures InBranch(disk', n, root, depth, k, x) <==> if k == j then x == p else InBranch(disk, n, root, depth, k, x) {
      HungMembers(disk, n, root, depth, j, p, x);
    }
    forall k | 0 <= k < n ensures UnsharedBranch(disk', n, root, depth, k) {
      HungMembers(disk, n, root, depth, j, p, p);
      ChildSet(disk, n, root, j, p, root, k);
      if k == j {
        EmptyTree(disk', n, p, depth - 1, p);
      } else {
        assert UnsharedBranch(disk, n, root, depth, k);
        SameUnshared(disk, disk', n, Child(disk, n, root, k), depth - 1);
      }
    }
    forall x, k | 0 <= k < n && InBranch(disk, n, root, depth, k, x) ensures InTree(disk, n, root, depth, x) {}
    HungPool(disk, n, root, depth, j, pool);
  }

  lemma HungPool(disk: Disk, n: nat, root: int, depth: nat, j: int, pool: seq<int>)
    requires Ready(disk, n, root, depth, pool) && depth >= 2 && 0 <= j < n && Child(disk, n, root, j) == 0 && pool != []
    ensures FreshPool(SetChild(disk, n, root, j, pool[0]), n, root, depth, pool[1..])
  {
    var disk', rest := SetChild(disk, n, root, j, pool[0]), pool[1..];
    assert InTree(disk, n, root, depth, root);
    forall i | 0 <= i < |rest| ensures rest[i] != 0 && !InTree(disk', n, root, depth, rest[i]) && ZeroFilled(disk', n, rest[i]) {
      assert rest[i] == pool[i + 1];
      HungMembers(disk, n, root, depth, j, pool[0], rest[i]);
      forall k | 0 <= k < n ensures Child(disk', n, rest[i], k) == 0 { ChildSet(disk, n, root, j, pool[0], rest[i], k); }
    }
  }

  lemma HungRead(disk: Disk, n: nat, root: int, depth: nat, j: int, p: int, i: nat)
    requires n >= 1 && depth >= 2 && root != 0 && 0 <= j < n && Child(disk, n, root, j) == 0 && p != 0 && i < Span(n, depth)
    requires Unshared(disk, n, root, depth) && !InTree(disk, n, root, depth, p) && ZeroFilled(disk, n, p)
    ensures Read(SetChild(disk, n, root, j, p), n, root, depth, i) == Read(disk, n, root, depth, i)
  {
    var disk' := SetChild(disk, n, root, j, p);
    SlotInRange(n, depth, i);
    var k := Slot(n, depth, i);
    HungMembers(disk, n, root, depth, j, p, p);
    ChildSet(disk, n, root, j, p, root, k);
    if k == j {
      EmptyRead(disk', n, p, depth - 1, Rest(n, depth, i));
    } else {
      SameRead(disk, disk', n, Child(disk, n, root, k), depth - 1, Rest(n, depth, i));
    }
  }

  // ----- Writing below an existing index block -----

  /** Nothing outside the tree and the fresh blocks is written. */
  lemma {:induction false} WriteFrame(disk: Disk, n: nat, root: int, depth: nat, i: nat, val: int, pool: seq<int>, x: int)
    requires Ready(disk, n, root, depth, pool) && i < Span(n, depth) && |pool| >= depth - 1
    requires !InTree(disk, n, root, depth, x) && x !in pool
    ensures Blk(Write(disk, n, root, depth, i, val, pool).0, n, x) == Blk(disk, n, x)
    decreases depth
  {
    SlotInRange(n, depth, i);
    var j := Slot(n, depth, i);
    assert InTree(disk, n, root, depth, root);
    if depth > 1 {
      if Child(disk, n, root, j) == 0 {
        var disk1 := SetChild(disk, n, root, j, pool[0]);
        HungReady(disk, n, root, depth, j, pool);
        HungMembers(disk, n, root, depth, j, pool[0], x);
        ChildSet(disk, n, root, j, pool[0], root, j);
        ChildSet(disk, n, root, j, pool[0], x, j);
        BranchReady(disk1, n, root, depth, j, pool[1..]);
        assert !InBranch(disk1, n, root, depth, j, x);
        WriteFrame(disk1, n, pool[0], depth - 1, Rest(n, depth, i), val, pool[1..], x);
      } else {
        BranchReady(disk, n, root, depth, j, pool);
        assert !InBranch(disk, n, root, depth, j, x);
        WriteFrame(disk, n, Child(disk, n, root, j), depth - 1, Rest(n, depth, i), val, pool, x);
      }
    }
  }

  lemma BranchReady(disk: Disk, n: nat, root: int, depth: nat, j: int, pool: seq<int>)
    requires Ready(disk, n, root, depth, pool) && depth >= 2 && 0 <= j < n && Child(disk, n, root, j) != 0
    ensures Ready(disk, n, Child(disk, n, root, j), depth - 1, pool)
  {
    assert UnsharedBranch(disk, n, root, depth, j);
    forall i | 0 <= i < |pool| ensures !InTree(disk, n, Child(disk, n, root, j), depth - 1, pool[i]) {
      assert !InBranch(disk, n, root, depth, j, pool[i]);
    }
  }

  /** Writing below the j-th pointer leaves the root and the other branches alone. */
  lemma WriteElsewhere(disk: Disk, n: nat, root: int, depth: nat, j: int, i: nat, val: int, pool: seq<int>)
    requires Ready(disk, n, root, depth, pool) && depth >= 2 && 0 <= j < n && Child(disk, n, root, j) != 0
    requires i < Span(n, depth - 1) && |pool| >= depth - 2
    ensures var disk' := Write(disk, n, Child(disk, n, root, j), depth - 1, i, val, pool).0;
            && Blk(disk', n, root) == Blk(disk, n, root)
            && forall k :: 0 <= k < n && k != j ==> SameTree(disk, disk', n, Child(disk, n, root, k), depth - 1)
  {
    var c, d := Child(disk, n, root, j), depth - 1;
    BranchReady(disk, n, root, depth, j, pool);
    assert InTree(disk, n, root, depth, root) && !InBranch(disk, n, root, depth, j, root);
    WriteFrame(disk, n, c, d, i, val, pool, root);
    var disk' := Write(disk, n, c, d, i, val, pool).0;
    forall k | 0 <= k < n && k != j ensures SameTree(disk, disk', n, Child(disk, n, root, k), d) {
      var e := Child(disk, n, root, k);
      forall y | InTree(disk, n, e, d, y) ensures Blk(disk', n, y) == Blk(disk, n, y) {
        assert InBranch(disk, n, root, depth, k, y) && !InBranch(disk, n, root, depth, j, y);
        WriteFrame(disk, n, c, d, i, val, pool, y);
      }
    }
  }

  /** What writing at index i below root does, seen at index i2 and block x. */
  ghost predicate Written(disk: Disk, disk': Disk, n: nat, root: int, depth: nat, i: nat, val: int, pool: seq<int>, i2: nat, x: int)
    requires n >= 1
  {
    && Read(disk', n, root, depth, i2) == (if i2 == i then val else Read(disk, n, root, depth, i2))
    && (InTree(disk', n, root, depth, x) ==> InTree(disk, n, root, depth, x) || x in pool)
    && Unshared(disk', n, root, depth)
  }

  /** The block map is a finite map: one index changes, all others read as before; the tree stays free
      of sharing and grows only by the fresh blocks. */
  lemma {:induction false} WriteIsUpdate(disk: Disk, n: nat, root: int, depth: nat, i: nat, val: int, pool: seq<int>, i2: nat, x: int)
    requires Ready(disk, n, root, depth, pool) && i < Span(n, depth) && i2 < Span(n, depth) && |pool| >= depth - 1
    ensures Written(disk, Write(disk, n, root, depth, i, val, pool).0, n, root, depth, i, val, pool, i2, x)
    decreases depth, 1
  {
    SlotInRange(n, depth, i);
    SlotInRange(n, depth, i2);
    var j := Slot(n, depth, i);
    if depth == 1 {
      LeafWrite(disk, n, root, i, val, pool, i2, x);
    } else if Child(disk, n, root, j) == 0 {
      var p, disk1 := pool[0], SetChild(disk, n, root, j, pool[0]);
      HungReady(disk, n, root, depth, j, pool);
      ChildSet(disk, n, root, j, p, root, j);
      HungRead(disk, n, root, depth, j, p, i2);
      HungMembers(disk, n, root, depth, j, p, x);
      InnerWrite(disk1, n, root, depth, i, val, pool[1..], i2, x);
    } else {
      InnerWrite(disk, n, root, depth, i, val, pool, i2, x);
    }
  }

  lemma LeafWrite(disk: Disk, n: nat, root: int, i: nat, val: int, pool: seq<int>, i2: nat, x: int)
    requires Ready(disk, n, root, 1, pool) && i < Span(n, 1) && i2 < Span(n, 1)
    ensures Written(disk, Write(disk, n, root, 1, i, val, pool).0, n, root, 1, i, val, pool, i2, x)
  {
    SlotInRange(n, 1, i);
    SlotInRange(n, 1, i2);
    assert Span(n, 0) == 1 && Slot(n, 1, i) == i && Slot(n, 1, i2) == i2;
    ChildSet(disk, n, root, i, val, root, i2);
    var disk' := SetChild(disk, n, root, i, val);
    forall k, y | 0 <= k < n ensures !InBranch(disk', n, root, 1, k, y) {}
  }

  /** The case where the index block below the root exists. */
  lemma {:induction false} InnerWrite(disk: Disk, n: nat, root: int, depth: nat, i: nat, val: int, pool: seq<int>, i2: nat, x: int)
    requires Ready(disk, n, root, depth, pool) && depth >= 2 && i < Span(n, depth) && i2 < Span(n, depth) && |pool| >= depth - 2
    requires Child(disk, n, root, Slot(n, depth, i)) != 0
    ensures var disk' := Write(disk, n, Child(disk, n, root, Slot(n, depth, i)), depth - 1, Rest(n, depth, i), val, pool).0;
            Written(disk, disk', n, root, depth, i, val, pool, i2, x)
    decreases depth, 0
  {
    SlotInRange(n, depth, i);
    SlotInRange(n, depth, i2);
    var j, k, r, r2, d := Slot(n, depth, i), Slot(n, depth, i2), Rest(n, depth, i), Rest(n, depth, i2), depth - 1;
    var c := Child(disk, n, root, j);
    var disk' := Write(disk, n, c, d, r, val, pool).0;
    BranchReady(disk, n, root, depth, j, pool);
    WriteElsewhere(disk, n, root, depth, j, r, val, pool);
    assert forall l :: Child(disk', n, root, l) == Child(disk, n, root, l);
    if k == j {
      WriteIsUpdate(disk, n, c, d, r, val, pool, r2, x);
    } else {
      SameRead(disk, disk', n, Child(disk, n, root, k), d, r2);
    }
    InnerTree(disk, n, root, depth, j, r, val, pool, x);
  }

  lemma {:induction false} InnerTree(disk: Disk, n: nat, root: int, depth: nat, j: int, r: nat, val: int, pool: seq<int>, x: int)
    requires Ready(disk, n, root, depth, pool) && depth >= 2 && 0 <= j < n && Child(disk, n, root, j) != 0
    requires r < Span(n, depth - 1) && |pool| >= depth - 2
    ensures var disk' := Write(disk, n, Child(disk, n, root, j), depth - 1, r, val, pool).0;
            (InTree(disk', n, root, depth, x) ==> InTree(disk, n, root, depth, x) || x in pool) && Unshared(disk', n, root, depth)
    decreases depth - 1, 2
  {
    var c, d := Child(disk, n, root, j), depth - 1;
    var disk' := Write(disk, n, c, d, r, val, pool).0;
    BranchReady(disk, n, root, depth, j, pool);
    WriteElsewhere(disk, n, root, depth, j, r, val, pool);
    forall l, y | 0 <= l < n
      ensures InBranch(disk', n, root, depth, l, y) ==> InBranch(disk, n, root, depth, l, y) || (l == j && y in pool)
    {
      assert Child(disk', n, root, l) == Child(disk, n, root, l);
      if l == j { WriteIsUpdate(disk, n, c, d, r, val, pool, r, y); } else { SameMembers(disk, disk', n, Child(disk, n, root, l), d, y); }
    }
    forall l | 0 <= l < n ensures UnsharedBranch(disk', n, root, depth, l) {
      assert Child(disk', n, root, l) == Child(disk, n, root, l);
      assert UnsharedBranch(disk, n, root, depth, l);
      if l == j { WriteIsUpdate(disk, n, c, d, r, val, pool, r, x); } else { SameUnshared(disk, disk', n, Child(disk, n, root, l), d); }
    }
    GrownTree(disk, disk', n, root, depth, j, pool, x);
  }

  lemma NotInTree(disk: Disk, n: nat, root: int, depth: nat, x: int)
    requires x != root && forall l :: 0 <= l < n ==> !InBranch(disk, n, root, depth, l, x)
    ensures !InTree(disk, n, root, depth, x)
  {
  }

  /** A tree whose j-th branch grew by fresh blocks only. */
  lemma GrownTree(disk: Disk, disk': Disk, n: nat, root: int, depth: nat, j: int, pool: seq<int>, x: int)
    requires Ready(disk, n, root, depth, pool) && 0 <= j < n
    requires forall l, y :: 0 <= l < n && InBranch(disk', n, root, depth, l, y) ==> InBranch(disk, n, root, depth, l, y) || (l == j && y in pool)
    requires forall l :: 0 <= l < n ==> UnsharedBranch(disk', n, root, depth, l)
    ensures InTree(disk', n, root, depth, x) ==> InTree(disk, n, root, depth, x) || x in pool
    ensures Unshared(disk', n, root, depth)
  {
    assert InTree(disk, n, root, depth, root);
    forall y | y in pool ensures !InTree(disk, n, root, depth, y) {}
    forall l | 0 <= l < n ensures !InBranch(disk', n, root, depth, l, root) {}
    if !InTree(disk, n, root, depth, x) && x !in pool {
      forall l | 0 <= l < n ensures !InBranch(disk', n, root, depth, l, x) {
        assert !InBranch(disk, n, root, depth, l, x);
      }
      NotInTree(disk', n, root, depth, x);
    }
    forall l, k, y | 0 <= l < n && 0 <= k < n && InBranch(disk', n, root, depth, l, y) && InBranch(disk', n, root, depth, k, y) ensures l == k {
      if y in pool {
        assert !InBranch(disk, n, root, depth, l, y) && !InBranch(disk, n, root, depth, k, y);
      }
    }
  }

  // ----- Regions of the inode -----

  /** Writing in a region whose top index block may be missing. */
  function WriteRegion(disk: Disk, n: nat, root: int, depth: nat, i: nat, val: int, pool: seq<int>): (int, Disk, seq<int>)
    requires n >= 1 && depth >= 1 && i < Span(n, depth) && |pool| >= depth
  {
    if root == 0 then
      var (d, p) := Write(disk, n, pool[0], depth, i, val, pool[1..]);
      (pool[0], d, p)
    else
      var (d, p) := Write(disk, n, root, depth, i, val, pool);
      (root, d, p)
  }

  ghost predicate RegionOk(disk: Disk, n: nat, root: int, depth: nat, pool: seq<int>) {
    Unshared(disk, n, root, depth) && FreshPool(disk, n, root, depth, pool)
  }

  lemma RootReady(disk: Disk, n: nat, root: int, depth: nat, pool: seq<int>)
    requires n >= 1 && depth >= 1 && RegionOk(disk, n, root, depth, pool) && (root == 0 ==> pool != [])
    ensures if root == 0 then Ready(disk, n, pool[0], depth, pool[1..]) else Ready(disk, n, root, depth, pool)
  {
    if root == 0 {
      var p, rest := pool[0], pool[1..];
      EmptyTree(disk, n, p, depth, p);
      forall i | 0 <= i < |rest| ensures !InTree(disk, n, p, depth, rest[i]) && rest[i] != 0 && ZeroFilled(disk, n, rest[i]) {
        assert rest[i] == pool[i + 1];
        EmptyTree(disk, n, p, depth, rest[i]);
      }
    }
  }

  /** A region is a finite map: one index changes and all others read as before. */
  lemma RegionUpdate(disk: Disk, n: nat, root: int, depth: nat, i: nat, val: int, pool: seq<int>, i2: nat, x: int)
    requires n >= 1 && depth >= 1 && RegionOk(disk, n, root, depth, pool) && i < Span(n, depth) && i2 < Span(n, depth) && |pool| >= depth
    ensures var (root', disk', pool') := WriteRegion(disk, n, root, depth, i, val, pool);
            && root' != 0
            && Read(disk', n, root', depth, i2) == (if i2 == i then val else Read(disk, n, root, depth, i2))
            && (InTree(disk', n, root', depth, x) ==> InTree(disk, n, root, depth, x) || x in pool)
            && Unshared(disk', n, root', depth)
  {
    RootReady(disk, n, root, depth, pool);
    if root == 0 {
      EmptyRead(disk, n, pool[0], depth, i2);
      EmptyTree(disk, n, pool[0], depth, x);
      WriteIsUpdate(disk, n, pool[0], depth, i, val, pool[1..], i2, x);
    } else {
      WriteIsUpdate(disk, n, root, depth, i, val, pool, i2, x);
    }
  }

  // ----- Which of the fresh blocks are used -----

  /** Block x is neither in the tree nor was it written. */
  ghost predicate Unused(disk: Disk, disk': Disk, n: nat, root: int, depth: nat, x: int) {
    !InTree(disk', n, root, depth, x) && Blk(disk', n, x) == Blk(disk, n, x)
  }

  /** The blocks left over are the last ones handed out, and are not used. */
  lemma {:induction false} WriteUses(disk: Disk, n: nat, root: int, depth: nat, i: nat, val: int, pool: seq<int>, x: int)
    requires Ready(disk, n, root, depth, pool) && i < Span(n, depth) && |pool| >= depth - 1
    ensures var (disk', rest) := Write(disk, n, root, depth, i, val, pool);
            |rest| <= |pool| && rest == pool[|pool| - |rest|..] && (x in rest ==> Unused(disk, disk', n, root, depth, x))
    decreases depth, 1
  {
    SlotInRange(n, depth, i);
    var j := Slot(n, depth, i);
    assert InTree(disk, n, root, depth, root);
    if depth == 1 {
      var disk' := SetChild(disk, n, root, j, val);
      ChildSet(disk, n, root, j, val, x, 0);
      forall k | 0 <= k < n ensures !InBranch(disk', n, root, depth, k, x) {}
    } else if Child(disk, n, root, j) == 0 {
      HungReady(disk, n, root, depth, j, pool);
      ChildSet(disk, n, root, j, pool[0], root, j);
      ChildSet(disk, n, root, j, pool[0], x, 0);
      InnerUses(SetChild(disk, n, root, j, pool[0]), n, root, depth, j, Rest(n, depth, i), val, pool[1..], x);
    } else {
      InnerUses(disk, n, root, depth, j, Rest(n, depth, i), val, pool, x);
    }
  }

  lemma {:induction false} InnerUses(disk: Disk, n: nat, root: int, depth: nat, j: int, r: nat, val: int, pool: seq<int>, x: int)
    requires Ready(disk, n, root, depth, pool) && depth >= 2 && 0 <= j < n && Child(disk, n, root, j) != 0
    requires r < Span(n, depth - 1) && |pool| >= depth - 2
    ensures var (disk', rest) := Write(disk, n, Child(disk, n, root, j), depth - 1, r, val, pool);
            |rest| <= |pool| && rest == pool[|pool| - |rest|..] && (x in rest ==> x in pool && Unused(disk, disk', n, root, depth, x))
    decreases depth, 0
  {
    var c, d := Child(disk, n, root, j), depth - 1;
    var (disk', rest) := Write(disk, n, c, d, r, val, pool);
    BranchReady(disk, n, root, depth, j, pool);
    WriteElsewhere(disk, n, root, depth, j, r, val, pool);
    WriteUses(disk, n, c, d, r, val, pool, x);
    assert InTree(disk, n, root, depth, root);
    if x in rest {
      assert x in pool && !InTree(disk, n, root, depth, x);
      forall l | 0 <= l < n ensures !InBranch(disk', n, root, depth, l, x) {
        assert Child(disk', n, root, l) == Child(disk, n, root, l);
        if l != j {
          assert !InBranch(disk, n, root, depth, l, x);
          SameMembers(disk, disk', n, Child(disk, n, root, l), d, x);
        }
      }
      NotInTree(disk', n, root, depth, x);
    }
  }

  lemma RegionUses(disk: Disk, n: nat, root: int, depth: nat, i: nat, val: int, pool: seq<int>, x: int)
    requires n >= 1 && depth >= 1 && RegionOk(disk, n, root, depth, pool) && i < Span(n, depth) && |pool| >= depth
    ensures var (root', disk', rest) := WriteRegion(disk, n, root, depth, i, val, pool);
            |rest| <= |pool| && rest == pool[|pool| - |rest|..] && (x in rest ==> Unused(disk, disk', n, root', depth, x))
  {
    RootReady(disk, n, root, depth, pool);
    if root == 0 {
      WriteUses(disk, n, pool[0], depth, i, val, pool[1..], x);
      SuffixOfTail(pool, Write(disk, n, pool[0], depth, i, val, pool[1..]).1);
    } else {
      WriteUses(disk, n, root, depth, i, val, pool, x);
    }
  }

  lemma SuffixOfTail(pool: seq<int>, rest: seq<int>)
    requires pool != [] && |rest| <= |pool| - 1 && rest == pool[1..][|pool| - 1 - |rest|..]
    ensures rest == pool[|pool| - |rest|..]
  {
  }

  /** x was an index block before, or is one of the blocks handed out and not left over. */
  ghost predicate Expected(disk: Disk, n: nat, root: int, depth: nat, pool: seq<int>, rest: seq<int>, x: int) {
    InTree(disk, n, root, depth, x) || (x in pool && x !in rest)
  }

  /** No index block is lost: those there were stay, and those taken from the pool are in the tree. */
  lemma {:induction false} WriteLosesNone(disk: Disk, n: nat, root: int, depth: nat, i: nat, val: int, pool: seq<int>, x: int)
    requires Ready(disk, n, root, depth, pool) && i < Span(n, depth) && |pool| >= depth - 1
    requires Expected(disk, n, root, depth, pool, Write(disk, n, root, depth, i, val, pool).1, x)
    ensures InTree(Write(disk, n, root, depth, i, val, pool).0, n, root, depth, x)
    decreases depth, 1
  {
    SlotInRange(n, depth, i);
    var j := Slot(n, depth, i);
    if depth == 1 {
      assert forall k :: 0 <= k < n ==> !InBranch(disk, n, root, depth, k, x);
    } else if Child(disk, n, root, j) == 0 {
      HungReady(disk, n, root, depth, j, pool);
      HungMembers(disk, n, root, depth, j, pool[0], x);
      ChildSet(disk, n, root, j, pool[0], root, j);
      assert x in pool ==> x == pool[0] || x in pool[1..];
      InnerLosesNone(SetChild(disk, n, root, j, pool[0]), n, root, depth, j, Rest(n, depth, i), val, pool[1..], x);
    } else {
      InnerLosesNone(disk, n, root, depth, j, Rest(n, depth, i), val, pool, x);
    }
  }

  lemma {:induction false} InnerLosesNone(disk: Disk, n: nat, root: int, depth: nat, j: int, r: nat, val: int, pool: seq<int>, x: int)
    requires Ready(disk, n, root, depth, pool) && depth >= 2 && 0 <= j < n && Child(disk, n, root, j) != 0
    requires r < Span(n, depth - 1) && |pool| >= depth - 2
    requires Expected(disk, n, root, depth, pool, Write(disk, n, Child(disk, n, root, j), depth - 1, r, val, pool).1, x)
    ensures InTree(Write(disk, n, Child(disk, n, root, j), depth - 1, r, val, pool).0, n, root, depth, x)
    decreases depth, 0
  {
    var c, d := Child(disk, n, root, j), depth - 1;
    var (disk', rest) := Write(disk, n, c, d, r, val, pool);
    BranchReady(disk, n, root, depth, j, pool);
    WriteElsewhere(disk, n, root, depth, j, r, val, pool);
    if Expected(disk, n, c, d, pool, rest, x) { WriteLosesNone(disk, n, c, d, r, val, pool, x); }
    StaysInTree(disk, disk', n, root, depth, j, x);
  }

  /** When only the j-th branch changed, a block below the root stays in the tree if the new branch has it. */
  lemma StaysInTree(disk: Disk, disk': Disk, n: nat, root: int, depth: nat, j: int, x: int)
    requires depth >= 2 && root != 0 && 0 <= j < n && Blk(disk', n, root) == Blk(disk, n, root)
    requires forall k :: 0 <= k < n && k != j ==> SameTree(disk, disk', n, Child(disk, n, root, k), depth - 1)
    requires InTree(disk', n, Child(disk, n, root, j), depth - 1, x) || (InTree(disk, n, root, depth, x) && !InBranch(disk, n, root, depth, j, x))
    ensures InTree(disk', n, root, depth, x)
  {
    var d := depth - 1;
    assert Child(disk', n, root, j) == Child(disk, n, root, j);
    if InTree(disk', n, Child(disk, n, root, j), d, x) {
      assert InBranch(disk', n, root, depth, j, x);
    } else if x != root {
      var l :| 0 <= l < n && InBranch(disk, n, root, depth, l, x);
      SameMembers(disk, disk', n, Child(disk, n, root, l), d, x);
      assert InBranch(disk', n, root, depth, l, x);
    }
  }

  lemma RegionLosesNone(disk: Disk, n: nat, root: int, depth: nat, i: nat, val: int, pool: seq<int>, x: int)
    requires n >= 1 && depth >= 1 && RegionOk(disk, n, root, depth, pool) && i < Span(n, depth) && |pool| >= depth
    requires Expected(disk, n, root, depth, pool, WriteRegion(disk, n, root, depth, i, val, pool).2, x)
    ensures var (root', disk', rest) := WriteRegion(disk, n, root, depth, i, val, pool); InTree(disk', n, root', depth, x)
  {
    RootReady(disk, n, root, depth, pool);
    if root == 0 {
      assert x == pool[0] || x in pool[1..];
      EmptyTree(disk, n, pool[0], depth, x);
      WriteLosesNone(disk, n, pool[0], depth, i, val, pool[1..], x);
    } else {
      WriteLosesNone(disk, n, root, depth, i, val, pool, x);
    }
  }

  /** Nothing outside the tree and the fresh blocks is written. */
  lemma RegionFrame(disk: Disk, n: nat, root: int, depth: nat, i: nat, val: int, pool: seq<int>, x: int)
    requires n >= 1 && depth >= 1 && RegionOk(disk, n, root, depth, pool) && i < Span(n, depth) && |pool| >= depth
    requires !InTree(disk, n, root, depth, x) && x !in pool
    ensures Blk(WriteRegion(disk, n, root, depth, i, val, pool).1, n, x) == Blk(disk, n, x)
  {
    RootReady(disk, n, root, depth, pool);
    if root == 0 {
      EmptyTree(disk, n, pool[0], depth, x);
      WriteFrame(disk, n, pool[0], depth, i, val, pool[1..], x);
    } else {
      WriteFrame(disk, n, root, depth, i, val, pool, x);
    }
  }

  // ----- A missing last-level index block -----

  /** The slot that index i has in the index block of the last level. */
  function LastSlot(n: nat, depth: nat, i: nat): nat
    requires n >= 1 && depth >= 1
    decreases depth
  {
    if depth == 1 then i else LastSlot(n, depth - 1, Rest(n, depth, i))
  }

  /** Indices i and k lie in the same index block of the last level. */
  predicate SameLast(n: nat, depth: nat, i: nat, k: nat)
    requires n >= 1 && depth >= 1
    decreases depth
  {
    depth == 1 || (Slot(n, depth, i) == Slot(n, depth, k) && SameLast(n, depth - 1, Rest(n, depth, i), Rest(n, depth, k)))
  }

  /** The index block of the last level for i is missing, and those above it are there. */
  ghost predicate LastMissing(disk: Disk, n: nat, root: int, depth: nat, i: nat)
    requires n >= 1 && depth >= 1
    decreases depth
  {
    if depth == 1 then root == 0 else root != 0 && LastMissing(disk, n, Child(disk, n, root, Slot(n, depth, i)), depth - 1, Rest(n, depth, i))
  }

  /** The index block one level above the last. */
  function Parent(disk: Disk, n: nat, root: int, depth: nat, i: nat): int
    requires n >= 1 && depth >= 2
    decreases depth
  {
    if depth == 2 then root else Parent(disk, n, Child(disk, n, root, Slot(n, depth, i)), depth - 1, Rest(n, depth, i))
  }

  /** The slot of the last-level block in its parent. */
  function ParentSlot(n: nat, depth: nat, i: nat): int
    requires n >= 1 && depth >= 2
    decreases depth
  {
    if depth == 2 then Slot(n, depth, i) else ParentSlot(n, depth - 1, Rest(n, depth, i))
  }

  lemma {:induction false} LastInRange(n: nat, depth: nat, i: nat)
    requires n >= 1 && depth >= 1 && i < Span(n, depth)
    ensures LastSlot(n, depth, i) < n && (depth >= 2 ==> 0 <= ParentSlot(n, depth, i) < n)
    decreases depth
  {
    if depth == 1 {
      assert Span(n, 1) == n * Span(n, 0);
    } else {
      SlotInRange(n, depth, i);
      LastInRange(n, depth - 1, Rest(n, depth, i));
    }
  }

  /** The index in slot j of the same last-level block. */
  lemma {:induction false} Sibling(n: nat, depth: nat, i: nat, j: nat) returns (k: nat)
    requires n >= 1 && depth >= 1 && i < Span(n, depth) && j < n
    ensures k < Span(n, depth) && SameLast(n, depth, i, k) && LastSlot(n, depth, k) == j
    decreases depth
  {
    if depth == 1 {
      assert Span(n, 1) == n * Span(n, 0);
      k := j;
    } else {
      SlotInRange(n, depth, i);
      var p, u := Span(n, depth - 1), Slot(n, depth, i);
      var r := Sibling(n, depth - 1, Rest(n, depth, i), j);
      k := u * p + r;
      DivModIs(k, p, u, r);
      MulMono(u, n - 1, p);
      assert (n - 1) * p == n * p - p;
    }
  }

  /** Different indices in the same last-level block have different slots. */
  lemma {:induction false} SlotsDiffer(n: nat, depth: nat, i: nat, k: nat)
    requires n >= 1 && depth >= 1 && i < Span(n, depth) && k < Span(n, depth) && SameLast(n, depth, i, k)
    ensures LastSlot(n, depth, i) == LastSlot(n, depth, k) <==> i == k
    decreases depth
  {
    if depth > 1 {
      SlotInRange(n, depth, i);
      SlotInRange(n, depth, k);
      SlotsDiffer(n, depth - 1, Rest(n, depth, i), Rest(n, depth, k));
    }
  }

  /** A missing index block reads as a hole everywhere. */
  lemma {:induction false} MissingReads(disk: Disk, n: nat, root: int, depth: nat, i: nat, k: nat)
    requires n >= 1 && depth >= 1 && LastMissing(disk, n, root, depth, i) && SameLast(n, depth, i, k)
    ensures Read(disk, n, root, depth, k) == 0
    decreases depth
  {
    if depth > 1 { MissingReads(disk, n, Child(disk, n, root, Slot(n, depth, i)), depth - 1, Rest(n, depth, i), Rest(n, depth, k)); }
  }

  /** The two words written: the parent's pointer to p, and the slot of p. */
  function Hung(disk: Disk, n: nat, root: int, depth: nat, i: nat, val: int, p: int): Disk
    requires n >= 1 && depth >= 2 && i < Span(n, depth)
  {
    LastInRange(n, depth, i);
    SetChild(SetChild(disk, n, Parent(disk, n, root, depth, i), ParentSlot(n, depth, i), p), n, p, LastSlot(n, depth, i), val)
  }

  lemma {:induction false} WriteLast(disk: Disk, n: nat, root: int, depth: nat, i: nat, val: int, pool: seq<int>)
    requires n >= 1 && depth >= 2 && i < Span(n, depth) && |pool| >= depth - 1 && LastMissing(disk, n, root, depth, i)
    ensures Write(disk, n, root, depth, i, val, pool).0 == Hung(disk, n, root, depth, i, val, pool[0])
    decreases depth
  {
    SlotInRange(n, depth, i);
    var r := Rest(n, depth, i);
    if depth == 2 {
      assert Slot(n, 1, r) == r / Span(n, 0) == r;
    } else {
      WriteLast(disk, n, Child(disk, n, root, Slot(n, depth, i)), depth - 1, r, val, pool);
    }
  }

  /** A child of the root is an index block of the tree. */
  lemma ChildInBranch(disk: Disk, n: nat, root: int, depth: nat, j: int)
    requires depth >= 2 && 0 <= j < n && root != 0 && Child(disk, n, root, j) != 0
    ensures InBranch(disk, n, root, depth, j, Child(disk, n, root, j)) && InTree(disk, n, root, depth, Child(disk, n, root, j))
  {
    assert InBranch(disk, n, root, depth, j, Child(disk, n, root, j));
  }

  lemma BranchInTree(disk: Disk, n: nat, root: int, depth: nat, j: int, x: int)
    requires depth >= 1 && 0 <= j < n && root != 0 && InBranch(disk, n, root, depth, j, x)
    ensures InTree(disk, n, root, depth, x)
  {
  }

  lemma {:induction false} ParentInTree(disk: Disk, n: nat, root: int, depth: nat, i: nat)
    requires n >= 1 && depth >= 2 && i < Span(n, depth) && LastMissing(disk, n, root, depth, i)
    ensures root != 0 && InTree(disk, n, root, depth, Parent(disk, n, root, depth, i))
    ensures depth > 2 ==> InBranch(disk, n, root, depth, Slot(n, depth, i), Parent(disk, n, root, depth, i))
    decreases depth
  {
    if depth > 2 {
      SlotInRange(n, depth, i);
      ParentInTree(disk, n, Child(disk, n, root, Slot(n, depth, i)), depth - 1, Rest(n, depth, i));
      BranchInTree(disk, n, root, depth, Slot(n, depth, i), Parent(disk, n, root, depth, i));
    }
  }

  /** The words of the disk after the two writes. */
  lemma HungChild(disk: Disk, n: nat, root: int, depth: nat, i: nat, val: int, p: int, x: int, k: int)
    requires n >= 1 && depth >= 2 && i < Span(n, depth) && p != Parent(disk, n, root, depth, i)
    ensures Child(Hung(disk, n, root, depth, i, val, p), n, x, k)
            == if x == p && k == LastSlot(n, depth, i) then val
               else if x == Parent(disk, n, root, depth, i) && k == ParentSlot(n, depth, i) then p
               else Child(disk, n, x, k)
    ensures x != p && x != Parent(disk, n, root, depth, i) ==> Blk(Hung(disk, n, root, depth, i, val, p), n, x) == Blk(disk, n, x)
  {
    LastInRange(n, depth, i);
    var q := Parent(disk, n, root, depth, i);
    var d := SetChild(disk, n, q, ParentSlot(n, depth, i), p);
    ChildSet(disk, n, q, ParentSlot(n, depth, i), p, x, k);
    ChildSet(d, n, p, LastSlot(n, depth, i), val, x, k);
  }

  lemma ReadOne(disk: Disk, n: nat, root: int, depth: nat, i: nat)
    requires n >= 1 && depth == 1
    ensures Read(disk, n, root, depth, i) == if root == 0 then 0 else Child(disk, n, root, i)
  {
    assert Slot(n, depth, i) == i / Span(n, 0) == i;
  }

  /** What other indices read once block p, which may hold anything, was put to use as the missing block: in the
      same last-level block they read what p holds, elsewhere they read as before. */
  lemma {:induction false} HungReads(disk: Disk, n: nat, root: int, depth: nat, i: nat, val: int, p: int, k: nat)
    requires n >= 1 && depth >= 2 && i < Span(n, depth) && k < Span(n, depth) && k != i
    requires LastMissing(disk, n, root, depth, i) && Unshared(disk, n, root, depth) && p != 0 && !InTree(disk, n, root, depth, p)
    ensures Read(Hung(disk, n, root, depth, i, val, p), n, root, depth, k)
            == if SameLast(n, depth, i, k) then Child(disk, n, p, LastSlot(n, depth, k)) else Read(disk, n, root, depth, k)
    decreases depth
  {
    if depth == 2 {
      HungReadsLow(disk, n, root, depth, i, val, p, k);
    } else if Slot(n, depth, k) == Slot(n, depth, i) {
      SlotInRange(n, depth, i);
      SlotInRange(n, depth, k);
      HungReadsUp(disk, n, root, depth, i, val, p);
      HungReads(disk, n, Child(disk, n, root, Slot(n, depth, i)), depth - 1, Rest(n, depth, i), val, p, Rest(n, depth, k));
    } else {
      SlotInRange(n, depth, k);
      HungElsewhere(disk, n, root, depth, i, val, p, Slot(n, depth, k));
      SameRead(disk, Hung(disk, n, root, depth, i, val, p), n, Child(disk, n, root, Slot(n, depth, k)), depth - 1, Rest(n, depth, k));
    }
  }

  /** The last-level block is a child of the root. */
  lemma HungReadsLow(disk: Disk, n: nat, root: int, depth: nat, i: nat, val: int, p: int, k: nat)
    requires n >= 1 && depth == 2 && i < Span(n, depth) && k < Span(n, depth) && k != i
    requires LastMissing(disk, n, root, depth, i) && Unshared(disk, n, root, depth) && p != 0 && !InTree(disk, n, root, depth, p)
    ensures Read(Hung(disk, n, root, depth, i, val, p), n, root, depth, k)
            == if SameLast(n, depth, i, k) then Child(disk, n, p, LastSlot(n, depth, k)) else Read(disk, n, root, depth, k)
  {
    SlotInRange(n, depth, i);
    SlotInRange(n, depth, k);
    var d, j, r := Hung(disk, n, root, depth, i, val, p), Slot(n, depth, k), Rest(n, depth, k);
    var c := Child(disk, n, root, j);
    HungChild(disk, n, root, depth, i, val, p, root, j);
    ReadOne(d, n, Child(d, n, root, j), depth - 1, r);
    ReadOne(disk, n, c, depth - 1, r);
    if j == Slot(n, depth, i) {
      HungChild(disk, n, root, depth, i, val, p, p, r);
    } else if c != 0 {
      ChildInBranch(disk, n, root, depth, j);
      assert !InBranch(disk, n, root, depth, j, root);
      HungChild(disk, n, root, depth, i, val, p, c, r);
    }
  }

  /** The last-level block is further down on the branch that i takes: the root keeps its pointers. */
  lemma HungReadsUp(disk: Disk, n: nat, root: int, depth: nat, i: nat, val: int, p: int)
    requires n >= 1 && depth > 2 && i < Span(n, depth)
    requires LastMissing(disk, n, root, depth, i) && Unshared(disk, n, root, depth) && p != 0 && !InTree(disk, n, root, depth, p)
    ensures var d, j := Hung(disk, n, root, depth, i, val, p), Slot(n, depth, i);
            var c := Child(disk, n, root, j);
            && 0 <= j < n && root != 0 && Rest(n, depth, i) < Span(n, depth - 1)
            && (forall k :: 0 <= k < n ==> Child(d, n, root, k) == Child(disk, n, root, k))
            && d == Hung(disk, n, c, depth - 1, Rest(n, depth, i), val, p)
            && LastMissing(disk, n, c, depth - 1, Rest(n, depth, i)) && Unshared(disk, n, c, depth - 1) && !InTree(disk, n, c, depth - 1, p)
  {
    SlotInRange(n, depth, i);
    ParentInTree(disk, n, root, depth, i);
    var j := Slot(n, depth, i);
    assert !InBranch(disk, n, root, depth, j, root) && UnsharedBranch(disk, n, root, depth, j);
    forall k | 0 <= k < n ensures Child(Hung(disk, n, root, depth, i, val, p), n, root, k) == Child(disk, n, root, k) {
      HungChild(disk, n, root, depth, i, val, p, root, k);
    }
    if InTree(disk, n, Child(disk, n, root, j), depth - 1, p) { BranchInTree(disk, n, root, depth, j, p); }
  }

  /** The other branches are untouched. */
  lemma HungElsewhere(disk: Disk, n: nat, root: int, depth: nat, i: nat, val: int, p: int, j: int)
    requires n >= 1 && depth > 2 && i < Span(n, depth) && 0 <= j < n && j != Slot(n, depth, i)
    requires LastMissing(disk, n, root, depth, i) && Unshared(disk, n, root, depth) && p != 0 && !InTree(disk, n, root, depth, p)
    ensures root != 0 && Child(Hung(disk, n, root, depth, i, val, p), n, root, j) == Child(disk, n, root, j)
    ensures SameTree(disk, Hung(disk, n, root, depth, i, val, p), n, Child(disk, n, root, j), depth - 1)
  {
    HungReadsUp(disk, n, root, depth, i, val, p);
    ParentInTree(disk, n, root, depth, i);
    var q := Parent(disk, n, root, depth, i);
    forall x | InTree(disk, n, Child(disk, n, root, j), depth - 1, x)
      ensures Blk(Hung(disk, n, root, depth, i, val, p), n, x) == Blk(disk, n, x)
    {
      assert InBranch(disk, n, root, depth, j, x);
      BranchInTree(disk, n, root, depth, j, x);
      assert x != q;
      HungChild(disk, n, root, depth, i, val, p, x, 0);
    }
  }
}
