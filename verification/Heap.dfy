/** The BGET boundary-tag heap (Kernel/bget.c): block tiling and its consequences.
    Everything in this module is about values; the allocator itself is in module Bget. */
module HeapSpec {
  import opened Words
  import opened Rings

  const HDR := 8            // sizeof(struct bhead)
  const QUANT := 4          // SizeQuant
  const MIN_DATA := 8       // SizeQ: room for the two queue links
  const ESENT := -0x8000_0000
  const QLINKS := Layout(8, 12)

  datatype Kind = Free | Used | End

  /** A block of `size` bytes, header included; End is the dummy block closing a pool. */
  datatype Block = Block(size: int, kind: Kind)

  type Blocks = map<int, Block>
  /** Start address of each pool, and the bytes between it and its closing dummy block. */
  type Pools = map<int, int>

  /** The bytes bget looks for: room for the links, rounded up to the quantum, plus the header. */
  function Need(request: int): (n: int)
    ensures request > 0 ==> n % 4 == 0 && n >= request + HDR && n >= 16
    ensures request > 0 ==> n < request + HDR + QUANT || n == 16
  {
    var size := if request < MIN_DATA then MIN_DATA else request;
    (size + 3) / 4 * 4 + HDR
  }

  /** Block sizes are whole quanta. */
  ghost predicate Whole(b: Block) {
    b.size % 4 == 0
  }

  /** The address right after block a. */
  function Next(blk: Blocks, a: int): int
    requires a in blk
  {
    a + blk[a].size
  }

  /** Some block ends exactly where a starts. */
  ghost predicate Follows(blk: Blocks, a: int) {
    exists p :: p in blk && !blk[p].kind.End? && Next(blk, p) == a
  }

  ghost predicate Closes(pools: Pools, a: int) {
    exists s :: s in pools && s + pools[s] == a
  }

  ghost predicate PoolsOk(pools: Pools) {
    && (forall s :: s in pools ==> pools[s] >= HDR + MIN_DATA)
    && (forall s, t :: s in pools && t in pools && s < t ==> s + pools[s] + HDR <= t)
  }

  ghost predicate Sized(blk: Blocks) {
    && (forall a :: a in blk ==> 0 < a && if blk[a].kind.End? then blk[a].size == HDR else blk[a].size >= HDR + MIN_DATA)
    && (forall a {:trigger Whole(blk[a])} :: a in blk ==> Whole(blk[a]))
  }

  ghost predicate Closed(blk: Blocks) {
    forall a {:trigger Next(blk, a)} :: a in blk && !blk[a].kind.End? ==> Next(blk, a) in blk
  }

  ghost predicate Disjoint(blk: Blocks) {
    forall a, c :: a in blk && c in blk && a < c ==> a + blk[a].size <= c
  }

  ghost predicate Coalesced(blk: Blocks)
    requires Closed(blk)
  {
    forall a {:trigger Next(blk, a)} :: a in blk && blk[a].kind.Free? ==> !blk[Next(blk, a)].kind.Free?
  }

  ghost predicate Connected(blk: Blocks, pools: Pools) {
    forall a {:trigger Follows(blk, a)} :: a in blk && a !in pools ==> Follows(blk, a)
  }

  ghost predicate Anchored(blk: Blocks, pools: Pools) {
    && (forall s :: s in pools ==> s in blk && !blk[s].kind.End? && s + pools[s] in blk && blk[s + pools[s]].kind.End?)
    && (forall a {:trigger Closes(pools, a)} :: a in blk && blk[a].kind.End? ==> Closes(pools, a))
  }

  /** The blocks tile every pool from its start up to its closing dummy block, without overlap and
      with no two free neighbours. */
  ghost predicate Tiled(blk: Blocks, pools: Pools) {
    && PoolsOk(pools) && Sized(blk) && Closed(blk) && Disjoint(blk) && Coalesced(blk)
    && Connected(blk, pools) && Anchored(blk, pools)
  }

  function Tag(b: Block): int {
    match b.kind
    case Free => b.size
    case Used => -b.size
    case End => ESENT
  }

  /** The back link of a is zero or the size of a free block ending at a. */
  ghost predicate BackOk(m: Mem, blk: Blocks, a: int) {
    Rd(m, a) == 0 || (a - Rd(m, a) in blk && blk[a - Rd(m, a)] == Block(Rd(m, a), Free))
  }

  /** The headers in memory describe the blocks: the signed size, and behind it the size of the
      preceding block if that one is free, else zero. */
  ghost predicate Tagged(m: Mem, blk: Blocks) {
    && (forall a :: a in blk ==> Rd(m, a + 4) == Tag(blk[a]))
    && (forall a {:trigger BackOk(m, blk, a)} :: a in blk ==> BackOk(m, blk, a))
    && (forall a {:trigger Next(blk, a)} :: a in blk && blk[a].kind.Free? ==> Rd(m, Next(blk, a)) == blk[a].size)
  }

  /** The free list is threaded through exactly the free blocks. */
  ghost predicate Listed(m: Mem, blk: Blocks, h: int, fl: seq<int>) {
    && Ring(m, QLINKS, h, fl)
    && (forall x :: x in fl ==> x in blk && blk[x].kind.Free?)
    && (forall a :: a in blk && blk[a].kind.Free? ==> a in fl)
  }

  /** The free-list head is a separate object of 16 bytes. */
  ghost predicate HeadApart(blk: Blocks, h: int) {
    forall a :: a in blk ==> a + blk[a].size <= h || h + 16 <= a
  }

  ghost predicate Inv(m: Mem, blk: Blocks, pools: Pools, h: int, fl: seq<int>) {
    Tiled(blk, pools) && Tagged(m, blk) && Listed(m, blk, h, fl) && HeadApart(blk, h)
  }

  /** The live buffers: block address to block size. */
  ghost function Live(blk: Blocks): map<int, int> {
    map a | a in blk && blk[a].kind.Used? :: blk[a].size
  }

  /** The tiling is determined by the pools and the live buffers: the free blocks are exactly the
      maximal gaps. */
  lemma TilingUnique(b1: Blocks, b2: Blocks, pools: Pools)
    requires Tiled(b1, pools) && Tiled(b2, pools) && Live(b1) == Live(b2)
    ensures b1 == b2
  {
    forall a | a in b1 ensures a in b2 && b2[a] == b1[a] { SameBlock(b1, b2, pools, a); }
    forall a | a in b2 ensures a in b1 && b1[a] == b2[a] { SameBlock(b2, b1, pools, a); }
  }

  lemma SameBlock(b1: Blocks, b2: Blocks, pools: Pools, a: int)
    requires Tiled(b1, pools) && Tiled(b2, pools) && Live(b1) == Live(b2) && a in b1
    ensures a in b2 && b2[a] == b1[a]
  {
    if b1[a].kind.Free? {
      assert a in b2 by {
        if a !in pools {
          assert Follows(b1, a);
          var p :| p in b1 && !b1[p].kind.End? && Next(b1, p) == a;
          SameUsedOrEnd(b1, b2, pools, p);
          assert Next(b2, p) == a;
        }
      }
      var c := Next(b1, a);
      SameUsedOrEnd(b1, b2, pools, c);
      if !b2[a].kind.Free? { SameUsedOrEnd(b2, b1, pools, a); }
      SameUsedOrEnd(b2, b1, pools, Next(b2, a));
    } else {
      SameUsedOrEnd(b1, b2, pools, a);
    }
  }

  lemma SameUsedOrEnd(b1: Blocks, b2: Blocks, pools: Pools, a: int)
    requires Tiled(b1, pools) && Tiled(b2, pools) && Live(b1) == Live(b2)
    requires a in b1 && !b1[a].kind.Free?
    ensures a in b2 && b2[a] == b1[a]
  {
    if b1[a].kind.Used? {
      assert a in Live(b1) && Live(b1)[a] == Live(b2)[a];
    } else {
      assert Closes(pools, a);
    }
  }

  // ----- Taking a block -----

  /** Block b is carved: its tail of n bytes goes to the caller when a free block worth keeping
      remains, otherwise the caller gets all of it. */
  ghost function Take(blk: Blocks, b: int, n: int): Blocks
    requires b in blk
  {
    var rem := blk[b].size - n;
    if rem > MIN_DATA + HDR then blk[b := Block(rem, Free)][b + rem := Block(n, Used)]
    else blk[b := Block(blk[b].size, Used)]
  }

  /** Where the buffer handed out by Take starts. */
  ghost function Taken(blk: Blocks, b: int, n: int): int
    requires b in blk
  {
    var rem := blk[b].size - n;
    if rem > MIN_DATA + HDR then b + rem else b
  }

  ghost predicate Takeable(blk: Blocks, b: int, n: int) {
    b in blk && blk[b].kind.Free? && 16 <= n <= blk[b].size && n % 4 == 0
  }

  lemma TakeSized(blk: Blocks, b: int, n: int)
    requires Sized(blk) && Takeable(blk, b, n)
    ensures Sized(Take(blk, b, n))
  {
    var blk' := Take(blk, b, n);
    assert Whole(blk[b]);
    forall a {:trigger Whole(blk'[a])} | a in blk' ensures Whole(blk'[a]) {
      if a in blk { assert Whole(blk[a]); }
    }
  }

  lemma TakeDisjoint(blk: Blocks, b: int, n: int)
    requires Disjoint(blk) && Takeable(blk, b, n)
    ensures Disjoint(Take(blk, b, n)) && (Taken(blk, b, n) != b ==> Taken(blk, b, n) !in blk)
  {
    assert forall a :: a in blk && b < a ==> b + blk[b].size <= a;
  }

  lemma TakeShape(blk: Blocks, b: int, n: int)
    requires Sized(blk) && Disjoint(blk) && Takeable(blk, b, n)
    ensures var blk', t := Take(blk, b, n), Taken(blk, b, n);
            && Sized(blk') && Disjoint(blk') && Next(blk', t) == Next(blk, b) && (t != b ==> t !in blk && Next(blk', b) == t)
  {
    TakeSized(blk, b, n);
    TakeDisjoint(blk, b, n);
  }

  lemma TakeClosed(blk: Blocks, b: int, n: int)
    requires Sized(blk) && Closed(blk) && Disjoint(blk) && Coalesced(blk) && Takeable(blk, b, n)
    ensures Closed(Take(blk, b, n)) && Coalesced(Take(blk, b, n))
  {
    TakeDisjoint(blk, b, n);
    var blk' := Take(blk, b, n);
    forall a {:trigger Next(blk', a)} | a in blk' && !blk'[a].kind.End?
      ensures Next(blk', a) in blk' && (blk'[a].kind.Free? ==> !blk'[Next(blk', a)].kind.Free?)
    {
      TakeNext(blk, b, n, a);
    }
  }

  lemma TakeNext(blk: Blocks, b: int, n: int, a: int)
    requires Closed(blk) && Coalesced(blk) && Takeable(blk, b, n) && (Taken(blk, b, n) != b ==> Taken(blk, b, n) !in blk)
    requires a in Take(blk, b, n) && !Take(blk, b, n)[a].kind.End?
    ensures var blk' := Take(blk, b, n); Next(blk', a) in blk' && (blk'[a].kind.Free? ==> !blk'[Next(blk', a)].kind.Free?)
  {
    var blk', t := Take(blk, b, n), Taken(blk, b, n);
    if a == b || a == t {
      assert Next(blk, b) in blk && Next(blk', t) == Next(blk, b);
    } else {
      assert Next(blk', a) == Next(blk, a);
    }
  }

  lemma TakeConnected(blk: Blocks, pools: Pools, b: int, n: int)
    requires Sized(blk) && Disjoint(blk) && Connected(blk, pools) && Takeable(blk, b, n)
    ensures Connected(Take(blk, b, n), pools)
  {
    TakeShape(blk, b, n);
    var blk', t := Take(blk, b, n), Taken(blk, b, n);
    forall a {:trigger Follows(blk', a)} | a in blk' && a !in pools ensures Follows(blk', a) {
      if a in blk {
        assert Follows(blk, a);
        var p :| p in blk && !blk[p].kind.End? && Next(blk, p) == a;
        var q := if p == b then t else p;
        assert q in blk' && !blk'[q].kind.End? && Next(blk', q) == a;
      } else {
        assert Next(blk', b) == a;
      }
    }
  }

  lemma TakeLive(blk: Blocks, b: int, n: int)
    requires Sized(blk) && Disjoint(blk) && Takeable(blk, b, n)
    ensures var blk', t := Take(blk, b, n), Taken(blk, b, n);
            t !in Live(blk) && Live(blk') == Live(blk)[t := blk'[t].size]
  {
    TakeShape(blk, b, n);
  }

  lemma TiledTake(blk: Blocks, pools: Pools, b: int, n: int)
    requires Tiled(blk, pools) && Takeable(blk, b, n)
    ensures Tiled(Take(blk, b, n), pools)
    ensures var blk', t := Take(blk, b, n), Taken(blk, b, n);
            t !in Live(blk) && Live(blk') == Live(blk)[t := blk'[t].size]
  {
    TakeShape(blk, b, n);
    TakeClosed(blk, b, n);
    TakeConnected(blk, pools, b, n);
    TakeLive(blk, b, n);
    TakeAnchored(blk, pools, b, n);
  }

  /** Blocks other than the one carved stay as they are. */
  lemma TakeOther(blk: Blocks, b: int, n: int, a: int)
    requires Disjoint(blk) && Takeable(blk, b, n) && a in blk && a != b
    ensures a in Take(blk, b, n) && Take(blk, b, n)[a] == blk[a]
  {
    TakeDisjoint(blk, b, n);
  }

  lemma TakeAnchored(blk: Blocks, pools: Pools, b: int, n: int)
    requires Anchored(blk, pools) && Disjoint(blk) && Takeable(blk, b, n)
    ensures Anchored(Take(blk, b, n), pools)
  {
    var blk' := Take(blk, b, n);
    forall s | s in pools
      ensures s in blk' && !blk'[s].kind.End? && s + pools[s] in blk' && blk'[s + pools[s]].kind.End?
    {
      if s != b { TakeOther(blk, b, n, s); }
      TakeOther(blk, b, n, s + pools[s]);
    }
    forall a {:trigger Closes(pools, a)} | a in blk' && blk'[a].kind.End? ensures Closes(pools, a) {
      assert a in blk && blk[a].kind.End?;
    }
  }

  // ----- Releasing a block -----

  /** Releasing b merges everything from x up to y into one free block: x is b, or the free block
      ending at b; y is the end of b, or of the free block starting there. */
  ghost predicate Span(blk: Blocks, b: int, x: int, y: int) {
    && b in blk && blk[b].kind.Used? && Next(blk, b) in blk
    && (if x == b then !FreeBefore(blk, b) else x in blk && blk[x].kind.Free? && Next(blk, x) == b)
    && var c := Next(blk, b);
       if blk[c].kind.Free? then y == Next(blk, c) else y == c
  }

  ghost predicate FreeBefore(blk: Blocks, b: int) {
    exists p :: p in blk && blk[p].kind.Free? && Next(blk, p) == b
  }

  ghost function Merge(blk: Blocks, x: int, y: int): Blocks {
    map a | a in blk && !(x < a < y) :: if a == x then Block(y - x, Free) else blk[a]
  }

  lemma SpanFacts(blk: Blocks, pools: Pools, b: int, x: int, y: int)
    requires Tiled(blk, pools) && Span(blk, b, x, y)
    ensures x in blk && y in blk && x <= b < y && y - x >= 16 && !blk[x].kind.End? && !blk[y].kind.Free? && (y - x) % 4 == 0
    ensures forall a :: a in blk && x < a < y ==> a == b || (a == Next(blk, b) && blk[a].kind.Free?)
    ensures forall a :: a in blk && x < a < y ==> a !in pools
    ensures !FreeBefore(blk, x)
  {
    SpanEnds(blk, b, x, y);
    forall a | a in blk && x < a < y ensures a == b || (a == Next(blk, b) && blk[a].kind.Free?) {
      SpanMiddle(blk, b, x, y, a);
    }
    forall a | a in blk && x < a < y ensures a !in pools {
      PoolStartsAlone(blk, pools, if a == b then x else b);
    }
  }

  lemma SpanEnds(blk: Blocks, b: int, x: int, y: int)
    requires Sized(blk) && Closed(blk) && Coalesced(blk) && Span(blk, b, x, y)
    ensures x in blk && y in blk && x <= b < y && y - x >= 16 && !blk[x].kind.End? && !blk[y].kind.Free? && (y - x) % 4 == 0
  {
    var c := Next(blk, b);
    if blk[c].kind.Free? { assert Next(blk, c) in blk; }
    assert Whole(blk[x]) && Whole(blk[b]) && Whole(blk[c]);
  }

  lemma SpanMiddle(blk: Blocks, b: int, x: int, y: int, a: int)
    requires Disjoint(blk) && Span(blk, b, x, y) && a in blk && x < a < y
    ensures a == b || (a == Next(blk, b) && blk[a].kind.Free?)
  {
    var c := Next(blk, b);
    if b < a < c {} else if c < a {}
  }

  /** No block runs into the start of a pool. */
  lemma PoolStartsAlone(blk: Blocks, pools: Pools, p: int)
    requires Tiled(blk, pools) && p in blk && !blk[p].kind.End?
    ensures Next(blk, p) !in pools
  {
    OwnPool(blk, pools, p);
    var t :| t in pools && t <= p < t + pools[t];
    assert t + pools[t] in blk;
  }

  /** Every block but a closing one lies inside some pool. */
  lemma {:induction false} OwnPool(blk: Blocks, pools: Pools, a: int)
    requires Tiled(blk, pools) && a in blk && !blk[a].kind.End?
    ensures exists t :: t in pools && t <= a < t + pools[t]
    decreases a
  {
    if a in pools {
      assert a <= a < a + pools[a];
    } else {
      assert Follows(blk, a);
      var p :| p in blk && !blk[p].kind.End? && Next(blk, p) == a;
      OwnPool(blk, pools, p);
      var t :| t in pools && t <= p < t + pools[t];
      assert t + pools[t] in blk && a <= t + pools[t];
      assert a != t + pools[t];
    }
  }

  lemma MergeShape(blk: Blocks, pools: Pools, b: int, x: int, y: int)
    requires Tiled(blk, pools) && Span(blk, b, x, y)
    ensures var blk' := Merge(blk, x, y);
            && Sized(blk') && Disjoint(blk') && x in blk' && y in blk' && Next(blk', x) == y
  {
    SpanFacts(blk, pools, b, x, y);
    var blk' := Merge(blk, x, y);
    forall a | a in blk' ensures Whole(blk'[a]) { assert a in blk && Whole(blk[a]); }
  }

  lemma MergeLive(blk: Blocks, b: int, x: int, y: int)
    requires x in blk && x <= b < y && b in blk && (x == b || blk[x].kind.Free?)
    requires forall a :: a in blk && x < a < y && a != b ==> blk[a].kind.Free?
    ensures Live(Merge(blk, x, y)) == Live(blk) - {b}
  {
    var blk', l := Merge(blk, x, y), Live(blk) - {b};
    assert forall a :: a in l <==> a in blk && blk[a].kind.Used? && a != b;
    assert forall a :: a in Live(blk') <==> a in l;
  }

  lemma MergeNext(blk: Blocks, pools: Pools, b: int, x: int, y: int, a: int)
    requires Tiled(blk, pools) && Span(blk, b, x, y)
    requires a in blk && !(x <= a < y) && !blk[a].kind.End?
    ensures var blk' := Merge(blk, x, y); a in blk' && blk'[a] == blk[a] && Next(blk', a) == Next(blk, a) && Next(blk, a) in blk'
  {
    SpanFacts(blk, pools, b, x, y);
    assert Next(blk, a) in blk;
  }

  lemma MergeClosed(blk: Blocks, pools: Pools, b: int, x: int, y: int)
    requires Tiled(blk, pools) && Span(blk, b, x, y)
    ensures Closed(Merge(blk, x, y)) && Coalesced(Merge(blk, x, y))
  {
    SpanFacts(blk, pools, b, x, y);
    MergeShape(blk, pools, b, x, y);
    var blk' := Merge(blk, x, y);
    forall a {:trigger Next(blk', a)} | a in blk' && !blk'[a].kind.End?
      ensures Next(blk', a) in blk' && (blk'[a].kind.Free? ==> !blk'[Next(blk', a)].kind.Free?)
    {
      if a != x { MergeNext(blk, pools, b, x, y, a); }
    }
  }

  lemma MergeConnected(blk: Blocks, pools: Pools, b: int, x: int, y: int)
    requires Tiled(blk, pools) && Span(blk, b, x, y)
    ensures Connected(Merge(blk, x, y), pools)
  {
    SpanFacts(blk, pools, b, x, y);
    MergeShape(blk, pools, b, x, y);
    var blk' := Merge(blk, x, y);
    forall a {:trigger Follows(blk', a)} | a in blk' && a !in pools ensures Follows(blk', a) {
      if a != y {
        assert Follows(blk, a);
        var p :| p in blk && !blk[p].kind.End? && Next(blk, p) == a;
        assert !(x <= p < y);
        MergeNext(blk, pools, b, x, y, p);
      }
    }
  }

  lemma TiledMerge(blk: Blocks, pools: Pools, b: int, x: int, y: int)
    requires Tiled(blk, pools) && Span(blk, b, x, y)
    ensures Tiled(Merge(blk, x, y), pools)
    ensures Live(Merge(blk, x, y)) == Live(blk) - {b}
  {
    SpanFacts(blk, pools, b, x, y);
    MergeShape(blk, pools, b, x, y);
    MergeLive(blk, b, x, y);
    MergeClosed(blk, pools, b, x, y);
    MergeConnected(blk, pools, b, x, y);
    MergeAnchored(blk, pools, x, y);
  }

  lemma MergeAnchored(blk: Blocks, pools: Pools, x: int, y: int)
    requires Anchored(blk, pools) && x in blk && y in blk && !blk[x].kind.End?
    requires forall a :: a in blk && x < a < y ==> a !in pools && !blk[a].kind.End?
    ensures Anchored(Merge(blk, x, y), pools)
  {
    var blk' := Merge(blk, x, y);
    forall a {:trigger Closes(pools, a)} | a in blk' && blk'[a].kind.End? ensures Closes(pools, a) {
      assert a in blk && blk[a].kind.End?;
    }
  }

  // ----- What the tiling means -----

  /** Live buffers do not overlap, and each lies inside one pool. */
  lemma LiveBuffersApart(blk: Blocks, pools: Pools, u: int, v: int)
    requires Tiled(blk, pools) && u in Live(blk) && v in Live(blk) && u != v
    ensures u + Live(blk)[u] <= v || v + Live(blk)[v] <= u
    ensures exists s :: s in pools && s <= u && u + Live(blk)[u] <= s + pools[s]
  {
    OwnPool(blk, pools, u);
    var s :| s in pools && s <= u < s + pools[s];
    assert s + pools[s] in blk;
  }

  /** The blocks met when walking from a towards e by block sizes. */
  ghost function Row(blk: Blocks, a: int, e: int): seq<int>
    decreases e - a
  {
    if a < e && a in blk && blk[a].size > 0 then [a] + Row(blk, Next(blk, a), e) else []
  }

  ghost function Bytes(blk: Blocks, row: seq<int>): int {
    if row == [] then 0 else (if row[0] in blk then blk[row[0]].size else 0) + Bytes(blk, row[1..])
  }

  lemma NoEndInside(blk: Blocks, pools: Pools, s: int, a: int)
    requires PoolsOk(pools) && Disjoint(blk) && Anchored(blk, pools) && s in pools && a in blk && s <= a < s + pools[s]
    ensures !blk[a].kind.End? && Next(blk, a) <= s + pools[s]
  {
    assert s + pools[s] in blk;
    assert blk[a].kind.End? ==> Closes(pools, a);
  }

  lemma RowStep(blk: Blocks, a: int, e: int)
    requires a < e && a in blk && blk[a].size > 0
    ensures var row, rest := Row(blk, a, e), Row(blk, Next(blk, a), e);
            row == [a] + rest && Bytes(blk, row) == blk[a].size + Bytes(blk, rest)
  {
    assert ([a] + Row(blk, Next(blk, a), e))[1..] == Row(blk, Next(blk, a), e);
  }

  lemma NothingBetween(blk: Blocks, a: int, x: int)
    requires Disjoint(blk) && a in blk && x in blk && a < x
    ensures Next(blk, a) <= x
  {
  }

  lemma {:induction false} PoolWalk(blk: Blocks, pools: Pools, s: int, a: int)
    requires PoolsOk(pools) && Disjoint(blk) && Anchored(blk, pools) && Closed(blk) && Sized(blk)
    requires s in pools && a in blk && s <= a <= s + pools[s]
    ensures Bytes(blk, Row(blk, a, s + pools[s])) == s + pools[s] - a
    ensures forall x :: x in blk && a <= x < s + pools[s] ==> x in Row(blk, a, s + pools[s])
    decreases s + pools[s] - a
  {
    var e := s + pools[s];
    if a < e {
      NoEndInside(blk, pools, s, a);
      var n := Next(blk, a);
      PoolWalk(blk, pools, s, n);
      RowStep(blk, a, e);
      forall x | x in blk && a <= x < e ensures x in Row(blk, a, e) {
        if x != a { NothingBetween(blk, a, x); }
      }
    }
  }

  /** Walking a pool block by block meets all of its blocks, and their sizes add up to the pool. */
  lemma PoolExactlyTiled(blk: Blocks, pools: Pools, s: int)
    requires Tiled(blk, pools) && s in pools
    ensures Bytes(blk, Row(blk, s, s + pools[s])) == pools[s]
    ensures forall x :: x in blk && s <= x < s + pools[s] ==> x in Row(blk, s, s + pools[s])
  {
    PoolWalk(blk, pools, s, s);
  }

  /** Every pool is one free block followed by its closing block, and there is nothing else. */
  ghost predicate Pristine(blk: Blocks, pools: Pools) {
    && (forall s :: s in pools ==> s in blk && blk[s] == Block(pools[s], Free) && s + pools[s] in blk && blk[s + pools[s]] == Block(HDR, End))
    && (forall a {:trigger Closes(pools, a)} :: a in blk ==> a in pools || Closes(pools, a))
  }

  /** When no buffer is live, every pool is one free block of its original size again. */
  lemma NothingLive(blk: Blocks, pools: Pools)
    requires Tiled(blk, pools) && forall u :: u !in Live(blk)
    ensures Pristine(blk, pools)
  {
    forall a | a in blk ensures !blk[a].kind.Used? { assert a !in Live(blk); }
    forall a | a in blk && blk[a].kind.Free? ensures a in pools && blk[a].size == pools[a] {
      FreeIsWholePool(blk, pools, a);
    }
  }

  lemma FreeIsWholePool(blk: Blocks, pools: Pools, a: int)
    requires Tiled(blk, pools) && a in blk && blk[a].kind.Free? && forall c :: c in blk ==> !blk[c].kind.Used?
    ensures a in pools && blk[a].size == pools[a]
  {
    assert !Follows(blk, a);
    assert a in pools;
    var n := Next(blk, a);
    assert Closes(pools, n);
    var t :| t in pools && t + pools[t] == n;
    assert a + pools[a] in blk;
  }
}
