/** When freeing a buddy block undoes the splits that allocating it made (Kernel/mm.c). Block numbers count
    from buddy_map_base, which buddy_init leaves one past the last page, so blocks need not be aligned. */
module BuddyRound {
  import opened Arith
  import opened Bits
  import opened Words
  import opened Lists
  import opened BuddySpec
  import opened Buddy

  /** Bits order up to c of the block number are zero: every half split off is the buddy of the rest. */
  ghost predicate BitsClear(p: int, order: int, c: int) {
    forall k :: order <= k < c ==> BitClear(p, k)
  }

  /** Freeing adds no block number. */
  lemma {:induction false} NothingNew(blk: Blocks, b: int, x: int)
    requires b in blk && x in Coalesce(blk, b)
    ensures x in blk
    decreases TOP - blk[b].order
  {
    var k := blk[b].order;
    var c := Flip(b, k);
    if k < TOP && c in blk && blk[c] == Block(k, Free) && c != b {
      NothingNew(Joined(blk[c := Block(k, Raw)], b, c), if b < c then b else c, x);
    }
  }

  /** A block of lower order than the one being freed stays. */
  lemma {:induction false} SmallerStays(blk: Blocks, b: int, x: int)
    requires b in blk && x in blk && x != b && blk[x].order < blk[b].order
    ensures x in Coalesce(blk, b)
    decreases TOP - blk[b].order
  {
    var k := blk[b].order;
    var c := Flip(b, k);
    if k < TOP && c in blk && blk[c] == Block(k, Free) && c != b {
      SmallerStays(Joined(blk[c := Block(k, Raw)], b, c), if b < c then b else c, x);
    }
  }

  /** Freeing the lower half right after a split: the halves join, or the upper one stays behind. */
  lemma HalvesJoin(blk: Blocks, p: int, u: int)
    requires p in blk && 0 < blk[p].order <= TOP && blk[p].status.Raw? && u !in blk && p < u && u == Flip(p, blk[p].order - 1)
    ensures Coalesce(Halved(blk, p, u), p) == Coalesce(blk, p)
  {
    JoinedAgain(blk, p, u);
    CoalesceStep(Halved(blk, p, u), p, u);
  }

  lemma JoinedAgain(blk: Blocks, p: int, u: int)
    requires p in blk && u !in blk && p < u && blk[p].status.Raw?
    ensures var h := Halved(blk, p, u); Joined(h[u := Block(h[p].order, Raw)], p, u) == blk
  {
  }

  lemma HalfStays(blk: Blocks, p: int, u: int)
    requires Disjoint(blk) && Half(blk, p, u) && !BitClear(p, blk[p].order - 1)
    ensures u in Coalesce(Halved(blk, p, u), p) && u !in blk
  {
    HalfFits(blk, p, u);
    var k := blk[p].order - 1;
    FlipAdjacent(p, k);
    var h, c := Halved(blk, p, u), Flip(p, k);
    assert c < p < u;
    if c in h && h[c] == Block(k, Free) {
      SmallerStays(Joined(h[c := Block(k, Raw)], p, c), c, u);
    }
  }

  lemma {:induction false} SplitKeepsBlock(blk: Blocks, p: int, order: int)
    requires p in blk && blk[p].status.Raw?
    ensures p in SplitDown(blk, p, order)
    decreases blk[p].order
  {
    if order < blk[p].order && 0 < blk[p].order {
      assert Pow2(blk[p].order - 1) >= 1;
      SplitKeepsBlock(Halved(blk, p, p + Pow2(blk[p].order - 1)), p, order);
    }
  }

  lemma {:induction false} Undone(blk: Blocks, lo: int, hi: int, p: int, order: int)
    requires Tiles(blk, lo, hi) && p in blk && blk[p].status.Raw? && 0 <= order <= blk[p].order && BitsClear(p, order, blk[p].order)
    ensures p in SplitDown(blk, p, order) && Coalesce(SplitDown(blk, p, order), p) == Coalesce(blk, p)
    decreases blk[p].order
  {
    var c := blk[p].order;
    if order < c {
      var u := p + Pow2(c - 1);
      assert Half(blk, p, u) && BitClear(p, c - 1);
      TilesHalved(blk, lo, hi, p, u);
      SplitStep(blk, p, order, u);
      Undone(Halved(blk, p, u), lo, hi, p, order);
      HalfFits(blk, p, u);
      FlipAdjacent(p, c - 1);
      HalvesJoin(blk, p, u);
    }
  }

  /** Some half split off is left over after the block was freed again. */
  lemma {:induction false} Leftover(blk: Blocks, lo: int, hi: int, p: int, order: int) returns (x: int)
    requires Tiles(blk, lo, hi) && p in blk && blk[p].status.Raw? && 0 <= order <= blk[p].order && !BitsClear(p, order, blk[p].order)
    ensures p in SplitDown(blk, p, order) && x in Coalesce(SplitDown(blk, p, order), p) && x !in blk
    decreases blk[p].order
  {
    var c := blk[p].order;
    var u := p + Pow2(c - 1);
    if BitsClear(p, order, c - 1) {
      x := u;
      LeftoverHere(blk, lo, hi, p, order, u);
    } else {
      assert Half(blk, p, u);
      TilesHalved(blk, lo, hi, p, u);
      SplitStep(blk, p, order, u);
      x := Leftover(Halved(blk, p, u), lo, hi, p, order);
    }
  }

  /** Only the topmost bit is set: the half split off first is left over. */
  lemma LeftoverHere(blk: Blocks, lo: int, hi: int, p: int, order: int, u: int)
    requires Tiles(blk, lo, hi) && Half(blk, p, u) && blk[p].status.Raw? && 0 <= order < blk[p].order
    requires BitsClear(p, order, blk[p].order - 1) && !BitClear(p, blk[p].order - 1)
    ensures p in SplitDown(blk, p, order) && u in Coalesce(SplitDown(blk, p, order), p) && u !in blk
  {
    TilesHalved(blk, lo, hi, p, u);
    SplitStep(blk, p, order, u);
    Undone(Halved(blk, p, u), lo, hi, p, order);
    HalfStays(blk, p, u);
  }

  /** Freeing a block right after it was split off gives what freeing the whole block would have given, so the
      splits are undone, exactly when the bits of its number from its own order up to the order of the block
      it was taken from are zero. Otherwise a half split off is never joined again. */
  lemma SplitThenFree(blk: Blocks, lo: int, hi: int, p: int, order: int)
    requires Tiles(blk, lo, hi) && p in blk && blk[p].status.Raw? && 0 <= order <= blk[p].order
    ensures p in SplitDown(blk, p, order)
    ensures Coalesce(SplitDown(blk, p, order), p) == Coalesce(blk, p) <==> BitsClear(p, order, blk[p].order)
  {
    SplitKeepsBlock(blk, p, order);
    if BitsClear(p, order, blk[p].order) {
      Undone(blk, lo, hi, p, order);
    } else {
      var x := Leftover(blk, lo, hi, p, order);
      if x in Coalesce(blk, p) { NothingNew(blk, p, x); }
    }
  }

  /** So a pair of pages that starts at an odd number, once split, is not joined again by freeing its lower
      page: the upper page stays a block of its own. */
  lemma OddPairStaysSplit(blk: Blocks, lo: int, hi: int, p: int)
    requires Tiles(blk, lo, hi) && p in blk && blk[p] == Block(1, Raw) && p % 2 == 1
    ensures p in SplitDown(blk, p, 0) && p + 1 in Coalesce(SplitDown(blk, p, 0), p) && p + 1 !in Coalesce(blk, p)
  {
    LowestBit(p, 0);
    assert Half(blk, p, p + 1);
    LeftoverHere(blk, lo, hi, p, 0, p + 1);
    if p + 1 in Coalesce(blk, p) { NothingNew(blk, p, p + 1); }
  }

  /** buddy_alloc and then buddy_free of the same block: the block of order c it was taken from is whole again,
      and joined further where its own buddy is free, exactly when the bits of its number are zero. */
  method AllocThenFree(s: State, order: nat, ghost v: View, ghost lo: int)
    returns (s': State, found: bool, p: int, ghost c: int, ghost v': View)
    requires Ok(s, v, lo) && FrontierFirst(v, order)
    ensures Ok(s', v', lo) && (found <==> order <= TOP)
    ensures found ==> FirstList(v.q, order, c) && v.q[Head(c)][0] == Node(p)
    ensures found ==> (v'.blk == Coalesce(v.blk[p := Block(c, Raw)], p) <==> BitsClear(p, order, c))
  {
    s', found, p, c, v' := BuddyAlloc(s, order, v, lo);
    if found {
      TakenTiles(s, v, lo, order, c, p, v'.blk, v'.hi);
      SplitThenFree(v.blk[p := Block(c, Raw)], lo, v'.hi, p, order);
      s', v' := BuddyFree(s', p, order, v', lo);
    }
  }

  /** get_order rounds down: the largest order whose block does not exceed the whole pages of size. */
  method GetOrder(size: nat) returns (order: nat)
    ensures var pages := size / 4096; if pages == 0 then order == 0 else Pow2(order) <= pages < Pow2(order + 1)
  {
    ghost var pages := size / 4096;
    var left := size / 4096;
    order := 0;
    left := left / 2;
    while left != 0
      invariant pages > 0 ==> (left * 2) * Pow2(order) <= pages < (left + 1) * 2 * Pow2(order) && (left == 0 ==> Pow2(order) <= pages)
      invariant pages == 0 ==> left == 0 && order == 0
      decreases left
    {
      HalvePages(left, Pow2(order));
      order := order + 1;
      left := left / 2;
    }
  }

  lemma HalvePages(left: nat, p: nat)
    ensures var h := left / 2; 2 * h * (2 * p) <= (left * 2) * p && (left + 1) * 2 * p <= (h + 1) * 2 * (2 * p)
  {
    var h := left / 2;
    MulMono(2 * h, left, 2 * p);
    MulMono(left + 1, 2 * h + 2, 2 * p);
    assert (2 * h) * (2 * p) == 2 * h * (2 * p);
  }
}
