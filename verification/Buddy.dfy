/** buddy_alloc, expand, buddy_free and their page-counting callers (Kernel/mm.c). */
module Buddy {
  import opened Folding
  import opened Bits
  import opened Words
  import opened Rings
  import opened Seqs
  import opened Lists
  import opened BuddySpec

  /** The blocks after halving block p down to the given order. */
  ghost function SplitDown(blk: Blocks, p: int, order: int): (r: Blocks)
    requires p in blk
    decreases blk[p].order
  {
    if blk[p].order <= order || blk[p].order <= 0 then blk
    else SplitDown(Halved(blk, p, p + Pow2(blk[p].order - 1)), p, order)
  }

  lemma SplitStep(blk: Blocks, p: int, order: int, u: int)
    requires Half(blk, p, u) && order < blk[p].order
    ensures SplitDown(Halved(blk, p, u), p, order) == SplitDown(blk, p, order)
  {
  }

  /** The blocks after block b is freed: it is joined with its buddy as long as that one is a free
      block of the same order. */
  ghost function Coalesce(blk: Blocks, b: int): Blocks
    requires b in blk
    decreases TOP - blk[b].order
  {
    var k := blk[b].order;
    var c := Flip(b, k);
    if k < TOP && c in blk && blk[c] == Block(k, Free) && c != b then
      var blk1 := blk[c := Block(k, Raw)];
      Coalesce(Joined(blk1, b, c), if b < c then b else c)
    else blk[b := Block(k, Free)]
  }

  /** mem_map's list links, page fields and the free_num of each order. */
  datatype State = State(mem: Mem, pages: Pages, num: seq<int>)

  /** What the state stands for: the lists, the blocks and the first page never used so far. */
  datatype View = View(q: Queues, blk: Blocks, hi: int)

  /** The allocator's invariant. The quantifier keeps it folded: its content is taken out by Open and
      put back by Seal, so that callers can carry it through loops without unfolding it. */
  ghost predicate Ok(s: State, v: View, lo: int) {
    forall t :: Token(t) ==> Inv(s.mem, s.pages, s.num, v.q, v.blk, lo, v.hi)
  }

  lemma Open(s: State, v: View, lo: int)
    requires Ok(s, v, lo)
    ensures Inv(s.mem, s.pages, s.num, v.q, v.blk, lo, v.hi)
  {
    assert Token(0);
  }

  lemma Seal(s: State, v: View, lo: int)
    requires Inv(s.mem, s.pages, s.num, v.q, v.blk, lo, v.hi)
    ensures Ok(s, v, lo)
  {
  }

  /** One round of expand: the upper half of p, now of order k, goes on list k. */
  method Halve(s: State, p: int, u: int, k: int, ghost v: View, ghost lo: int, ghost order: int)
    returns (s': State, ghost v': View)
    requires Ok(s, v, lo) && 0 <= order <= k && p in v.blk && v.blk[p] == Block(k + 1, Raw) && u == p + Pow2(k)
    ensures Ok(s', v', lo) && v'.hi == v.hi && v'.blk == Halved(v.blk, p, u)
    ensures p in v'.blk && v'.blk[p] == Block(k, Raw) && SplitDown(v'.blk, p, order) == SplitDown(v.blk, p, order)
  {
    Open(s, v, lo);
    assert Half(v.blk, p, u);
    SplitStep(v.blk, p, order, u);
    HalveKeeps(s.pages, s.num, v.q, v.blk, lo, v.hi, p, u, k);
    var m := ListAdd(s.mem, Head(k), Node(u), v.q);
    s' := State(m, SetOrder(s.pages, u, k), s.num[k := s.num[k] + 1]);
    v' := View(Pushed(v.q, k, u), Halved(v.blk, p, u), v.hi);
    Seal(s', v', lo);
  }

  /** The frontier chunk p is off the top list and its successor not yet on it. */
  ghost predicate Unseeded(s: State, v: View, lo: int, p: int) {
    && Head(TOP) in v.q && v.hi == p + Pow2(TOP) && Family(s.mem, v.q) && Loose(v.q, Node(v.hi))
    && Shape(s.pages, s.num, Pushed(v.q, TOP, v.hi), v.blk, lo, v.hi)
  }

  method Seed(s: State, p: int, ghost v: View, ghost lo: int) returns (s': State, ghost v': View)
    requires Unseeded(s, v, lo, p)
    ensures Ok(s', v', lo) && v'.hi == v.hi && v'.blk == v.blk
  {
    var m := ListAdd(s.mem, Head(TOP), Node(p + Pow2(TOP)), v.q);
    s' := s.(mem := m);
    v' := v.(q := Pushed(v.q, TOP, v.hi));
    Seal(s', v', lo);
  }

  /** Split block p, of order c and off the lists, down to the requested order. When p was the
      frontier chunk its successor is put on the top list first. */
  method Expand(s: State, p: int, order: int, c: int, ghost v: View, ghost lo: int) returns (s': State, ghost v': View)
    requires 0 <= order <= c <= TOP && p in v.blk && v.blk[p] == Block(c, Raw)
    requires if c == TOP then Unseeded(s, v, lo, p) else Ok(s, v, lo)
    ensures Ok(s', v', lo) && v'.hi == v.hi && v'.blk == SplitDown(v.blk, p, order)
    ensures p in v'.blk && v'.blk[p] == Block(order, Raw)
  {
    s', v' := s, v;
    if c == TOP {
      s', v' := Seed(s, p, v, lo);
    }
    s', v' := SplitLoop(s', p, order, c, v', lo);
  }

  /** The loop of expand. */
  method SplitLoop(s: State, p: int, order: int, c: int, ghost v: View, ghost lo: int) returns (s': State, ghost v': View)
    requires Ok(s, v, lo) && 0 <= order <= c <= TOP && p in v.blk && v.blk[p] == Block(c, Raw)
    ensures Ok(s', v', lo) && v'.hi == v.hi && v'.blk == SplitDown(v.blk, p, order)
    ensures p in v'.blk && v'.blk[p] == Block(order, Raw)
  {
    var curr := c;
    var size := Pow2(curr);
    ghost var target := SplitDown(v.blk, p, order);
    s', v' := s, v;
    while curr > order
      invariant Ok(s', v', lo) && v'.hi == v.hi && order <= curr <= TOP && size == Pow2(curr)
      invariant p in v'.blk && v'.blk[p] == Block(curr, Raw) && SplitDown(v'.blk, p, order) == target
    {
      curr := curr - 1;
      size := size / 2;
      assert size == Pow2(curr);
      s', v' := Halve(s', p, p + size, curr, v', lo, order);
    }
  }

  /** Where the search for a block of this order ends: the first list at or above it that has a node. */
  ghost predicate FirstList(q: Queues, order: int, c: int) {
    order <= c <= TOP && Head(c) in q && q[Head(c)] != [] && forall k :: order <= k < c ==> Head(k) in q && q[Head(k)] == []
  }

  /** The block the search finds is not on the top list, or it is the untouched frontier chunk. */
  ghost predicate FrontierFirst(v: View, order: int) {
    FirstList(v.q, order, TOP) ==> v.q[Head(TOP)][0] == Node(v.hi)
  }

  /** The view once block p of order c is off its list: the frontier moves if p is the frontier chunk. */
  ghost predicate TakenFrom(v: View, order: int, c: int, p: int, blk': Blocks, hi': int) {
    && FirstList(v.q, order, c) && v.q[Head(c)][0] == Node(p)
    && blk' == SplitDown(v.blk[p := Block(c, Raw)], p, order)
    && hi' == (if c == TOP then v.hi + Pow2(TOP) else v.hi) && (c == TOP ==> p == v.hi)
  }

  /** What the folded invariant says about list k: it is there, and empty exactly when its head points at itself. */
  lemma ListState(s: State, v: View, lo: int, k: int)
    requires Ok(s, v, lo) && 0 <= k <= TOP
    ensures Head(k) in v.q && (Rd(s.mem, Head(k) + 4) == Head(k) <==> v.q[Head(k)] == [])
  {
    Open(s, v, lo);
    EmptyRing(s.mem, Head(k), v.q[Head(k)]);
  }

  /** The top list always holds the frontier chunk. */
  lemma TopListed(s: State, v: View, lo: int)
    requires Ok(s, v, lo)
    ensures Head(TOP) in v.q && v.q[Head(TOP)] != []
  {
    Open(s, v, lo);
    assert Node(v.hi) in v.q[Head(TOP)] <==> Listed(v.blk, v.hi, TOP, v.hi);
  }

  method BuddyAlloc(s: State, order: nat, ghost v: View, ghost lo: int)
    returns (s': State, found: bool, p: int, ghost c: int, ghost v': View)
    requires Ok(s, v, lo) && FrontierFirst(v, order)
    ensures Ok(s', v', lo) && (found <==> order <= TOP)
    ensures !found ==> s' == s && v' == v
    ensures found ==> TakenFrom(v, order, c, p, v'.blk, v'.hi) && p in v'.blk && v'.blk[p] == Block(order, Raw)
  {
    s', v', p, c := s, v, 0, 0;
    TopListed(s, v, lo);
    var corder := order;
    while corder <= TOP
      invariant s' == s && v' == v && order <= corder
      invariant forall k :: order <= k < corder && k <= TOP ==> Head(k) in v.q && v.q[Head(k)] == []
    {
      ListState(s, v, lo, corder);
      var h := Head(corder);
      if Rd(s.mem, h + 4) == h {
        corder := corder + 1;
        continue;
      }
      c := corder;
      s', p, v' := TakeFirst(s, order, corder, v, lo);
      return s', true, p, c, v';
    }
    found := false;
  }

  /** The first node of a list, and the page it lies in. */
  lemma FirstNode(s: State, v: View, lo: int, c: int)
    requires Ok(s, v, lo) && 0 <= c <= TOP && Head(c) in v.q && v.q[Head(c)] != []
    ensures var x := Rd(s.mem, Head(c) + 4); x == v.q[Head(c)][0] && Node(x / 16) == x && Listed(v.blk, v.hi, c, x / 16)
  {
    Open(s, v, lo);
    var h := Head(c);
    assert Link(s.mem, NODE, h, v.q[h], 0);
    var x := v.q[h][0];
    assert x in v.q[h] && IsNode(x);
    assert Node(x / 16) in v.q[h] <==> Listed(v.blk, v.hi, c, x / 16);
  }

  /** Take the first block of the non-empty list c and split it down. */
  method TakeFirst(s: State, order: int, c: int, ghost v: View, ghost lo: int) returns (s': State, p: int, ghost v': View)
    requires Ok(s, v, lo) && 0 <= order && FirstList(v.q, order, c) && (c == TOP ==> v.q[Head(TOP)][0] == Node(v.hi))
    ensures Ok(s', v', lo) && TakenFrom(v, order, c, p, v'.blk, v'.hi)
    ensures p in v'.blk && v'.blk[p] == Block(order, Raw)
  {
    FirstNode(s, v, lo, c);
    p := Rd(s.mem, Head(c) + 4) / 16;  // container_of
    var s1;
    ghost var v1;
    if c == TOP {
      s1, v1 := DetachTop(s, p, v, lo);
    } else {
      s1, v1 := DetachFirst(s, p, c, v, lo);
    }
    s', v' := Expand(s1, p, order, c, v1, lo);
  }

  /** list_del, rmv_page_order and the count, for a list below the top. */
  method DetachFirst(s: State, p: int, c: int, ghost v: View, ghost lo: int) returns (s1: State, ghost v1: View)
    requires Ok(s, v, lo) && 0 <= c < TOP && Head(c) in v.q && v.q[Head(c)] != [] && v.q[Head(c)][0] == Node(p) && p in v.blk && v.blk[p] == Block(c, Free)
    ensures Ok(s1, v1, lo) && v1.blk == v.blk[p := Block(c, Raw)] && v1.hi == v.hi
  {
    Open(s, v, lo);
    var m := ListDel(s.mem, Node(p), v.q, Head(c), 0);
    s1 := State(m, RmvOrder(s.pages, p), s.num[c := s.num[c] - 1]);
    DetachKeeps(s.mem, s.pages, s.num, v.q, v.blk, lo, v.hi, c, 0, p);
    v1 := View(Dropped(v.q, Head(c), 0), v.blk[p := Block(c, Raw)], v.hi);
    Seal(s1, v1, lo);
  }

  /** The same for the frontier chunk: its successor is still to be seeded. */
  method DetachTop(s: State, p: int, ghost v: View, ghost lo: int) returns (s1: State, ghost v1: View)
    requires Ok(s, v, lo) && Head(TOP) in v.q && v.q[Head(TOP)] != [] && v.q[Head(TOP)][0] == Node(p) && p == v.hi
    ensures Unseeded(s1, v1, lo, p) && v1.blk == v.blk[p := Block(TOP, Raw)] && v1.hi == p + Pow2(TOP)
  {
    Open(s, v, lo);
    var m := ListDel(s.mem, Node(p), v.q, Head(TOP), 0);
    s1 := State(m, RmvOrder(s.pages, p), s.num[TOP := s.num[TOP] - 1]);
    SeedKeeps(s.mem, s.pages, s.num, v.q, v.blk, lo, p, 0, p + Pow2(TOP));
    v1 := View(Dropped(v.q, Head(TOP), 0), v.blk[p := Block(TOP, Raw)], p + Pow2(TOP));
  }

  /** One round of buddy_free: the buddy c, a free block of order k, leaves its list and joins b. */
  method JoinBuddy(s: State, b: int, c: int, k: int, ghost v: View, ghost lo: int) returns (s': State, ghost v': View)
    requires Ok(s, v, lo) && 0 <= k < TOP && b in v.blk && v.blk[b] == Block(k, Raw) && c in v.blk && v.blk[c] == Block(k, Free)
    requires c == b + Pow2(k) || c == b - Pow2(k)
    ensures Ok(s', v', lo) && v'.hi == v.hi && v'.blk == Joined(v.blk[c := Block(k, Raw)], b, c)
  {
    Open(s, v, lo);
    assert Node(c) in v.q[Head(k)] <==> Listed(v.blk, v.hi, k, c);
    ghost var n :| 0 <= n < |v.q[Head(k)]| && v.q[Head(k)][n] == Node(c);
    DetachKeeps(s.mem, s.pages, s.num, v.q, v.blk, lo, v.hi, k, n, c);
    var m := ListDel(s.mem, Node(c), v.q, Head(k), n);
    s' := State(m, RmvOrder(s.pages, c), s.num[k := s.num[k] - 1]);
    ghost var blk1 := v.blk[c := Block(k, Raw)];
    JoinKeeps(s'.pages, s'.num, Dropped(v.q, Head(k), n), blk1, lo, v.hi, b, c);
    v' := View(Dropped(v.q, Head(k), n), Joined(blk1, b, c), v.hi);
    Seal(s', v', lo);
  }

  /** Block i is the first on list k. */
  ghost predicate FirstIs(q: Queues, k: int, i: int) {
    Head(k) in q && q[Head(k)] != [] && q[Head(k)][0] == Node(i)
  }

  method Settle(s: State, b: int, k: int, ghost v: View, ghost lo: int) returns (s': State, ghost v': View)
    requires Ok(s, v, lo) && b in v.blk && v.blk[b] == Block(k, Raw)
    ensures Ok(s', v', lo) && v'.hi == v.hi && v'.blk == v.blk[b := Block(k, Free)] && FirstIs(v'.q, k, b)
  {
    Open(s, v, lo);
    SettleKeeps(s.pages, s.num, v.q, v.blk, lo, v.hi, b, k);
    var m := ListAdd(s.mem, Head(k), Node(b), v.q);
    s' := State(m, SetOrder(s.pages, b, k), s.num[k := s.num[k] + 1]);
    v' := View(Pushed(v.q, k, b), v.blk[b := Block(k, Free)], v.hi);
    Seal(s', v', lo);
  }

  method BuddyFree(s: State, page: int, order: int, ghost v: View, ghost lo: int) returns (s': State, ghost v': View)
    requires Ok(s, v, lo) && page in v.blk && v.blk[page] == Block(order, Raw)
    ensures Ok(s', v', lo) && v'.hi == v.hi && v'.blk == Coalesce(v.blk, page)
    ensures var x := MergedAt(v.blk, page); Settled(v.blk, v'.blk, page, x) && FirstIs(v'.q, v'.blk[x].order, x)
    ensures order == TOP ==> FirstIs(v'.q, TOP, page)
  {
    s', v' := s, v;
    var idx, k := page, order;
    OrderInRange(s, v, lo, page);
    ghost var target, start := Coalesce(v.blk, page), MergedAt(v.blk, page);
    BlockSettles(s, v, lo, page);
    while k < TOP
      invariant Ok(s', v', lo) && v'.hi == v.hi && 0 <= k <= TOP
      invariant idx in v'.blk && v'.blk[idx] == Block(k, Raw) && Coalesce(v'.blk, idx) == target && MergedAt(v'.blk, idx) == start
      invariant order == TOP ==> idx == page && k == TOP
    {
      var c := Xor(idx, Pow2(k));
      FlipAdjacent(idx, k);
      TestBuddy(s', v', lo, c, k);
      if !(Marked(s'.pages, c, k) && Pg(s'.pages, c).count == 0) { break; }
      if Pg(s'.pages, c).resvd { break; }
      CoalesceStep(v'.blk, idx, c);
      s', v' := JoinBuddy(s', idx, c, k, v', lo);
      idx := And(idx, c);
      k := k + 1;
    }
    s', v' := Settle(s', idx, k, v', lo);
  }

  lemma BlockSettles(s: State, v: View, lo: int, b: int)
    requires Ok(s, v, lo) && b in v.blk && v.blk[b].status.Raw?
    ensures Settled(v.blk, Coalesce(v.blk, b), b, MergedAt(v.blk, b))
  {
    Open(s, v, lo);
    CoalesceSettles(v.blk, lo, v.hi, b);
  }

  lemma OrderInRange(s: State, v: View, lo: int, b: int)
    requires Ok(s, v, lo) && b in v.blk
    ensures 0 <= v.blk[b].order <= TOP
  {
    Open(s, v, lo);
  }

  /** The test of buddy_free succeeds exactly on a free block of that order. */
  lemma TestBuddy(s: State, v: View, lo: int, c: int, k: int)
    requires Ok(s, v, lo) && 0 <= k < TOP
    ensures Marked(s.pages, c, k) && Pg(s.pages, c).count == 0 && !Pg(s.pages, c).resvd <==> c in v.blk && v.blk[c] == Block(k, Free)
  {
    Open(s, v, lo);
    BuddyTest(s.pages, v.blk, lo, v.hi, c, k);
  }

  lemma CoalesceStep(blk: Blocks, b: int, c: int)
    requires b in blk && 0 <= blk[b].order < TOP && c == Flip(b, blk[b].order) && c in blk && blk[c] == Block(blk[b].order, Free) && c != b
    ensures var blk' := Joined(blk[c := Block(blk[b].order, Raw)], b, c);
            Coalesce(blk', if b < c then b else c) == Coalesce(blk, b) && MergedAt(blk', if b < c then b else c) == MergedAt(blk, b)
  {
  }

  // ----- What splitting and coalescing leave -----

  /** Splitting block p of order c down leaves it with the given order, and a free half of each order in between; every
      other block is as it was. */
  ghost predicate SplitInto(blk: Blocks, blk': Blocks, p: int, order: int, c: int) {
    && p in blk' && blk'[p].order == order
    && (forall k {:trigger HalfAt(p, k)} :: order <= k < c ==> HalfAt(p, k) in blk' && blk'[HalfAt(p, k)] == Block(k, Free))
    && (forall d :: d in blk && d != p ==> d in blk' && blk'[d] == blk[d])
    && (forall d :: d in blk' && d !in blk && d != p ==> IsHalf(p, order, c, d))
  }

  function HalfAt(p: int, k: int): int { p + Pow2(k) }

  ghost predicate IsHalf(p: int, order: int, c: int, d: int) {
    exists k {:trigger HalfAt(p, k)} :: order <= k < c && d == HalfAt(p, k)
  }

  lemma {:induction false} SplitShape(blk: Blocks, lo: int, hi: int, p: int, order: int)
    requires Tiles(blk, lo, hi) && p in blk && 0 <= order <= blk[p].order
    ensures SplitInto(blk, SplitDown(blk, p, order), p, order, blk[p].order) && SplitDown(blk, p, order)[p].status == blk[p].status
    decreases blk[p].order
  {
    var c := blk[p].order;
    if order < c {
      var u := p + Pow2(c - 1);
      assert Half(blk, p, u);
      TilesHalved(blk, lo, hi, p, u);
      SplitStep(blk, p, order, u);
      SplitShape(Halved(blk, p, u), lo, hi, p, order);
      SplitFurther(blk, p, u, order, SplitDown(blk, p, order));
    }
  }

  lemma SplitFurther(blk: Blocks, p: int, u: int, order: int, r: Blocks)
    requires p in blk && u !in blk && 0 <= order < blk[p].order && u != p && u == HalfAt(p, blk[p].order - 1)
    requires SplitInto(Halved(blk, p, u), r, p, order, blk[p].order - 1)
    ensures SplitInto(blk, r, p, order, blk[p].order)
  {
    var c := blk[p].order;
    assert u in Halved(blk, p, u) && r[u] == Block(c - 1, Free);
    forall d | d in r && d !in blk && d != p ensures IsHalf(p, order, c, d) {
      if d != u {
        assert IsHalf(p, order, c - 1, d);
        var k {:trigger HalfAt(p, k)} :| order <= k < c - 1 && d == HalfAt(p, k);
      }
    }
  }

  /** Where the block that freeing b leaves starts. */
  ghost function MergedAt(blk: Blocks, b: int): int
    requires b in blk
    decreases TOP - blk[b].order
  {
    var k := blk[b].order;
    var c := Flip(b, k);
    if k < TOP && c in blk && blk[c] == Block(k, Free) && c != b then
      MergedAt(Joined(blk[c := Block(k, Raw)], b, c), if b < c then b else c)
    else b
  }

  /** x heads the free block that freeing block p leaves: it covers p and otherwise only blocks that were free, every block
      outside it is as it was, and its own buddy is not a free block of the same order, so nothing more can be joined. */
  ghost predicate Settled(blk: Blocks, blk': Blocks, p: int, x: int) {
    && p in blk && x in blk' && blk'[x].status.Free? && x <= p && Last(blk, p) <= Last(blk', x)
    && (blk'[x].order < TOP ==> var c := Xor(x, Pow2(blk'[x].order)); !(c in blk' && blk'[c] == Block(blk'[x].order, Free)))
    && (forall d :: d in blk' <==> d == x || (d in blk && !(x <= d < Last(blk', x))))
    && (forall d :: d in blk' && d != x ==> blk'[d] == blk[d])
    && (forall d :: d in blk && x <= d < Last(blk', x) ==> d == p || blk[d].status.Free?)
  }

  lemma {:induction false} CoalesceSettles(blk: Blocks, lo: int, hi: int, b: int)
    requires Tiles(blk, lo, hi) && b in blk && blk[b].status.Raw?
    ensures Settled(blk, Coalesce(blk, b), b, MergedAt(blk, b))
    decreases TOP - blk[b].order
  {
    var k := blk[b].order;
    var c := Flip(b, k);
    FlipAdjacent(b, k);
    if k < TOP && c in blk && blk[c] == Block(k, Free) && c != b {
      var blk1 := blk[c := Block(k, Raw)];
      TilesStatus(blk, lo, hi, c, Raw);
      TilesJoined(blk1, lo, hi, b, c);
      CoalesceSettles(Joined(blk1, b, c), lo, hi, if b < c then b else c);
      SettledBefore(blk, b, c, k, Coalesce(blk, b), MergedAt(blk, b));
    } else {
      NothingJoined(blk, b, blk[b := Block(k, Free)]);
    }
  }

  lemma NothingJoined(blk: Blocks, b: int, r: Blocks)
    requires Disjoint(blk) && b in blk && r == blk[b := Block(blk[b].order, Free)]
    requires blk[b].order < TOP ==> var c := Flip(b, blk[b].order); c != b && !(c in blk && blk[c] == Block(blk[b].order, Free))
    ensures Settled(blk, r, b, b)
  {
    assert Last(r, b) == Last(blk, b);
  }

  /** The status of the block freed plays no part. */
  lemma SettledStatus(blk: Blocks, r: Blocks, p: int, x: int, s: Status)
    requires p in blk && Settled(blk[p := Block(blk[p].order, s)], r, p, x)
    ensures Settled(blk, r, p, x)
  {
    assert forall d :: d in blk && d != p ==> blk[p := Block(blk[p].order, s)][d] == blk[d];
  }

  lemma SplitStatus(blk: Blocks, r: Blocks, p: int, order: int, c: int, s: Status)
    requires SplitInto(blk[p := Block(c, Raw)], r, p, order, c) && (p in blk ==> blk[p].order == c) && 0 <= order <= c
    ensures SplitInto(blk, r[p := Block(order, s)], p, order, c)
  {
    forall k | order <= k < c ensures HalfAt(p, k) != p {}
  }

  /** One join further back. */
  lemma SettledBefore(blk: Blocks, b: int, c: int, k: int, r: Blocks, x: int)
    requires b in blk && c in blk && 0 <= k && blk[b].order == k && blk[c] == Block(k, Free) && (c == b + Pow2(k) || c == b - Pow2(k))
    requires var y := if b < c then b else c; Settled(Joined(blk[c := Block(k, Raw)], b, c), r, y, x)
    ensures Settled(blk, r, b, x)
  {
    var y, z := if b < c then b else c, if b < c then c else b;
    var j := Joined(blk[c := Block(k, Raw)], b, c);
    assert Last(j, y) == z + Pow2(k) && Pow2(k + 1) == 2 * Pow2(k);
    forall d | d in blk && x <= d < Last(r, x) && d != b && d != c ensures blk[d].status.Free? { assert d in j && j[d] == blk[d]; }
  }

  // ----- Blocks in use -----

  /** The blocks handed out: first page to order. */
  ghost function Held(blk: Blocks): map<int, int> {
    map b | b in blk && blk[b].status.InUse? :: blk[b].order
  }

  lemma HalvedHeld(blk: Blocks, p: int, u: int)
    requires p in blk && u !in blk && blk[p].status.Raw?
    ensures Held(Halved(blk, p, u)) == Held(blk)
  {
  }

  lemma {:induction false} SplitHeld(blk: Blocks, lo: int, hi: int, p: int, order: int)
    requires Tiles(blk, lo, hi) && p in blk && blk[p].status.Raw?
    ensures Held(SplitDown(blk, p, order)) == Held(blk)
    decreases blk[p].order
  {
    if order < blk[p].order && 0 < blk[p].order {
      var u := p + Pow2(blk[p].order - 1);
      assert Half(blk, p, u);
      TilesHalved(blk, lo, hi, p, u);
      HalvedHeld(blk, p, u);
      SplitStep(blk, p, order, u);
      SplitHeld(Halved(blk, p, u), lo, hi, p, order);
    }
  }

  lemma {:induction false} CoalesceHeld(blk: Blocks, b: int)
    requires b in blk && blk[b].status.Raw?
    ensures Held(Coalesce(blk, b)) == Held(blk)
    decreases TOP - blk[b].order
  {
    var k := blk[b].order;
    var c := Flip(b, k);
    if k < TOP && c in blk && blk[c] == Block(k, Free) && c != b {
      var blk1 := blk[c := Block(k, Raw)];
      CoalesceHeld(Joined(blk1, b, c), if b < c then b else c);
      assert Held(blk1) == Held(blk);
      assert Held(Joined(blk1, b, c)) == Held(blk1);
    }
  }

  /** Add d to the count of each of n pages from p on. */
  method Recount(pages: Pages, p: int, n: nat, d: int) returns (pages': Pages)
    ensures Recounted(pages, pages', p, n, d)
  {
    pages' := pages;
    for i := 0 to n
      invariant Recounted(pages, pages', p, i, d)
    {
      pages' := pages'[p + i := Pg(pages', p + i).(count := Pg(pages', p + i).count + d)];
    }
  }

  /** The block about to be split, off its list, tiles with the others. */
  lemma TakenTiles(s: State, v: View, lo: int, order: int, c: int, p: int, blk': Blocks, hi': int)
    requires Ok(s, v, lo) && 0 <= order && TakenFrom(v, order, c, p, blk', hi')
    ensures Tiles(v.blk[p := Block(c, Raw)], lo, hi') && (p in v.blk ==> v.blk[p] == Block(c, Free))
  {
    Open(s, v, lo);
    assert v.q[Head(c)][0] in v.q[Head(c)];
    assert Node(p) in v.q[Head(c)] <==> Listed(v.blk, v.hi, c, p);
    if c == TOP {
      TilesSeed(v.blk, lo, p, hi');
    } else {
      TilesStatus(v.blk, lo, v.hi, p, Raw);
    }
  }

  lemma RawHeld(blk: Blocks, p: int, c: int)
    requires p in blk ==> blk[p].status.Free?
    ensures Held(blk[p := Block(c, Raw)]) == Held(blk) && p !in Held(blk)
  {
  }

  /** Taking and splitting a block leaves the blocks in use alone. */
  lemma TakenHeld(s: State, v: View, lo: int, order: int, c: int, p: int, blk': Blocks, hi': int)
    requires Ok(s, v, lo) && 0 <= order && TakenFrom(v, order, c, p, blk', hi')
    ensures Held(blk') == Held(v.blk) && p !in Held(v.blk)
  {
    TakenTiles(s, v, lo, order, c, p, blk', hi');
    SplitHeld(v.blk[p := Block(c, Raw)], lo, hi', p, order);
    RawHeld(v.blk, p, c);
  }

  lemma TakenSplit(s: State, v: View, lo: int, order: int, c: int, p: int, blk': Blocks, hi': int)
    requires Ok(s, v, lo) && 0 <= order && TakenFrom(v, order, c, p, blk', hi')
    ensures SplitInto(v.blk, blk'[p := Block(order, InUse)], p, order, c)
  {
    TakenTiles(s, v, lo, order, c, p, blk', hi');
    SplitShape(v.blk[p := Block(c, Raw)], lo, hi', p, order);
    SplitStatus(v.blk, blk', p, order, c, InUse);
  }

  /** alloc_pages_buddy. */
  method AllocBlock(s: State, order: nat, ghost v: View, ghost lo: int)
    returns (s': State, found: bool, p: int, ghost c: int, ghost v': View)
    requires Ok(s, v, lo) && FrontierFirst(v, order)
    ensures Ok(s', v', lo) && (found <==> order <= TOP)
    ensures !found ==> s' == s && v' == v
    ensures found ==> FirstList(v.q, order, c) && v.q[Head(c)][0] == Node(p)
    ensures found ==> v'.hi == if c == TOP then v.hi + Pow2(TOP) else v.hi
    ensures found ==> p !in Held(v.blk) && Held(v'.blk) == Held(v.blk)[p := order]
    ensures found ==> SplitInto(v.blk, v'.blk, p, order, c)
  {
    s', found, p, c, v' := BuddyAlloc(s, order, v, lo);
    if found {
      TakenHeld(s, v, lo, order, c, p, v'.blk, v'.hi);
      TakenSplit(s, v, lo, order, c, p, v'.blk, v'.hi);
      s', v' := Switch(s', p, order, InUse, v', lo);
    }
  }

  lemma StatusHeld(blk: Blocks, p: int, status: Status)
    requires p in blk && !blk[p].status.Free? && !status.Free? && status != blk[p].status
    ensures var order := blk[p].order;
            Held(blk[p := Block(order, status)]) == if status.InUse? then Held(blk)[p := order] else Held(blk) - {p}
  {
  }

  /** Raise the counts of a block just taken, or lower those of a block about to be freed. */
  method Switch(s: State, p: int, order: int, status: Status, ghost v: View, ghost lo: int) returns (s': State, ghost v': View)
    requires Ok(s, v, lo) && p in v.blk && v.blk[p].order == order && !v.blk[p].status.Free? && !status.Free? && status != v.blk[p].status
    ensures Ok(s', v', lo) && v' == v.(blk := v.blk[p := Block(order, status)])
    ensures Held(v'.blk) == if status.InUse? then Held(v.blk)[p := order] else Held(v.blk) - {p}
  {
    var pages := Recount(s.pages, p, Pow2(order), if status.InUse? then 1 else -1);
    s' := s.(pages := pages);
    v' := v.(blk := v.blk[p := Block(order, status)]);
    Switched(s, pages, v, lo, p, status);
    StatusHeld(v.blk, p, status);
  }

  lemma Switched(s: State, pages: Pages, v: View, lo: int, p: int, status: Status)
    requires Ok(s, v, lo) && p in v.blk && !v.blk[p].status.Free? && !status.Free? && status != v.blk[p].status
    requires Recounted(s.pages, pages, p, Pow2(v.blk[p].order), if status.InUse? then 1 else -1)
    ensures Ok(s.(pages := pages), v.(blk := v.blk[p := Block(v.blk[p].order, status)]), lo)
  {
    Open(s, v, lo);
    RecountKeeps(s.pages, pages, s.num, v.q, v.blk, lo, v.hi, p, status);
  }

  /** Every page of a block in use is counted once and none of them is marked free. */
  lemma HeldPages(s: State, v: View, lo: int, p: int)
    requires Ok(s, v, lo) && p in Held(v.blk)
    ensures forall i :: p <= i < p + Pow2(Held(v.blk)[p]) ==> Pg(s.pages, i).count == 1
  {
    Open(s, v, lo);
    assert forall i :: p <= i < p + Pow2(v.blk[p].order) ==> Within(v.blk, p, i);
  }

  /** free_pages_buddy: a page that is marked free is left alone, anything else is a block in use. */
  method FreeBlock(s: State, order: int, p: int, ghost v: View, ghost lo: int) returns (s': State, ghost v': View)
    requires Ok(s, v, lo) && (Pg(s.pages, p).buddy || (p in Held(v.blk) && Held(v.blk)[p] == order))
    ensures Ok(s', v', lo)
    ensures if Pg(s.pages, p).buddy then s' == s && v' == v
            else Held(v'.blk) == Held(v.blk) - {p} && v'.blk == Coalesce(v.blk[p := Block(order, Raw)], p) && v'.hi == v.hi
                 && (order == TOP ==> FirstIs(v'.q, TOP, p))
    ensures !Pg(s.pages, p).buddy ==>
              var x := MergedAt(v.blk[p := Block(order, Raw)], p); Settled(v.blk, v'.blk, p, x) && FirstIs(v'.q, v'.blk[x].order, x)
  {
    s', v' := s, v;
    if Pg(s.pages, p).buddy { return; }
    HeldPages(s, v, lo, p);
    assert forall i :: p <= i < p + Pow2(order) ==> Pg(s.pages, i).count - 1 == 0;  // the BUG() at line 616 is not reached
    s', v' := Switch(s, p, order, Raw, v, lo);
    CoalesceHeld(v'.blk, p);
    s', v' := BuddyFree(s', p, order, v', lo);
    SettledStatus(v.blk, v'.blk, p, MergedAt(v.blk[p := Block(order, Raw)], p), Raw);
  }

  // ----- What goes wrong when a coalesced top-order block is taken again -----

  /** Memory after buddy_alloc took block b off the top list and expand seeded b's neighbour. */
  function Reseeded(m: Mem, b: int): Mem {
    AddWords(DelWords(m, Node(b)), Head(TOP), Node(b + Pow2(TOP)))
  }

  /** The link words of the top list, its nodes and the reseeded node. */
  ghost predicate SameTopLinks(m: Mem, m': Mem, t: seq<int>, e: int) {
    SameNode(m, m', Head(TOP)) && SameNode(m, m', e) && forall x :: x in t ==> SameNode(m, m', x)
  }

  ghost predicate SameNode(m: Mem, m': Mem, x: int) {
    Rd(m', x) == Rd(m, x) && Rd(m', x + 4) == Rd(m, x + 4)
  }

  /** If the block taken from the top list is not the frontier chunk, no view of the resulting state
      that keeps the frontier and the other blocks satisfies the invariant, whatever expand does to
      the other lists afterwards. */
  lemma RetakeBreaks(s: State, v: View, lo: int, b: int, s': State, v': View)
    requires Ok(s, v, lo) && FirstList(v.q, TOP, TOP) && v.q[Head(TOP)][0] == Node(b) && b != v.hi
    requires SameTopLinks(Reseeded(s.mem, b), s'.mem, v.q[Head(TOP)], Node(b + Pow2(TOP)))
    requires v'.hi == v.hi && forall x :: x in v.blk && x != b ==> x in v'.blk && v'.blk[x] == v.blk[x]
    ensures !Ok(s', v', lo)
  {
    Open(s, v, lo);
    if Ok(s', v', lo) {
      Open(s', v', lo);
      var h, e := Head(TOP), Node(b + Pow2(TOP));
      assert !IsHead(e);
      ReseededWords(s.mem, v.q, b, e);
      SameFacts(Reseeded(s.mem, b), s'.mem, v.q[h], e);
      FirstIsNeighbour(s'.mem, h, e, v.q[h], v'.q[h]);
      RunsBack(s'.mem, h, e, v.q[h], v'.q[h]);
      WasOnList(v, lo, b, v', e);
    }
  }

  /** What the two list operations leave behind: the head points to e, e to the second node of the old
      list t, and the old nodes to their old successors. */
  ghost predicate Reentered(m: Mem, h: int, e: int, t: seq<int>) {
    && Rd(m, h + 4) == e && Rd(m, e + 4) == At(h, t, 2)
    && forall i :: 1 <= i < |t| && t[i] != e ==> Rd(m, t[i] + 4) == At(h, t, i + 2)
  }

  lemma ReseededWords(m: Mem, q: Queues, b: int, e: int)
    requires Family(m, q) && Head(TOP) in q && q[Head(TOP)] != [] && q[Head(TOP)][0] == Node(b)
    requires e == Node(b + Pow2(TOP)) && e !in q
    ensures Reentered(Reseeded(m, b), Head(TOP), e, q[Head(TOP)])
  {
    var h, t := Head(TOP), q[Head(TOP)];
    var f := At(h, t, 2);
    DeletedWords(m, q, h, 0, Node(b), h, f);
    AtOn(h, t, 2);
    AlignedApart(e, h);
    AddedWords(DelWords(m, Node(b)), h, e, f);
    forall i | 1 <= i < |t| && t[i] != e ensures Rd(Reseeded(m, b), t[i] + 4) == At(h, t, i + 2) {
      KeptThrough(m, q, h, t, i, b, e, f);
    }
  }

  lemma KeptThrough(m: Mem, q: Queues, h: int, t: seq<int>, i: nat, b: int, e: int, f: int)
    requires Family(m, q) && h == Head(TOP) && h in q && t == q[h] && 1 <= i < |t| && t[0] == Node(b) && f == At(h, t, 2)
    requires t[i] != e && Aligned(e) && SameExcept(DelWords(m, Node(b)), Reseeded(m, b), {e + 4, f, h + 4, e})
    ensures Rd(Reseeded(m, b), t[i] + 4) == At(h, t, i + 2)
  {
    KeptForward(m, q, h, t, i, b, f);
    assert t[i] in t;
    AtOn(h, t, 2);
    NotTouched(h, e, f, t[i]);
  }

  lemma NotTouched(h: int, e: int, f: int, x: int)
    requires Aligned(h) && Aligned(e) && Aligned(f) && Aligned(x) && x != h && x != e
    ensures x + 4 !in {e + 4, f, h + 4, e}
  {
  }

  lemma AddedWords(m: Mem, h: int, e: int, f: int)
    requires Apart(h, e) && Rd(m, h + 4) == f && Aligned(f) && Aligned(e) && Aligned(h)
    ensures var m' := AddWords(m, h, e);
            Rd(m', h + 4) == e && Rd(m', e + 4) == f && SameExcept(m, m', {e + 4, f, h + 4, e})
  {
  }

  lemma KeptForward(m: Mem, q: Queues, h: int, t: seq<int>, i: nat, b: int, f: int)
    requires Family(m, q) && h in q && t == q[h] && 1 <= i < |t| && t[0] == Node(b) && f == At(h, t, 2)
    ensures Rd(DelWords(m, Node(b)), t[i] + 4) == At(h, t, i + 2)
  {
    DeletedWords(m, q, h, 0, Node(b), h, f);
    assert Link(m, NODE, h, t, i + 1);
    Distinct(h, t, 0, i + 1);
    Distinct(h, t, 1, i + 1);
    AtOn(h, t, 2);
    assert t[i] in t;
    if f != t[i] { AlignedApart(f, t[i]); }
  }

  lemma SameFacts(m: Mem, m': Mem, t: seq<int>, e: int)
    requires Reentered(m, Head(TOP), e, t) && SameTopLinks(m, m', t, e)
    ensures Reentered(m', Head(TOP), e, t)
  {
    var h := Head(TOP);
    forall i | 1 <= i < |t| && t[i] != e ensures Rd(m', t[i] + 4) == At(h, t, i + 2) { assert t[i] in t; }
  }

  /** The reseeded neighbour heads the top list in every view of the new memory. */
  lemma FirstIsNeighbour(m: Mem, h: int, e: int, t: seq<int>, t': seq<int>)
    requires Reentered(m, h, e, t) && Ring(m, NODE, h, t') && e != h
    ensures t' != [] && t'[0] == e
  {
    assert Link(m, NODE, h, t', 0);
  }

  /** So in a valid view it is the frontier or a free block of top order, and was so before the call. */
  lemma WasOnList(v: View, lo: int, b: int, v': View, e: int)
    requires Tiles(v.blk, lo, v.hi) && ListsOk(v.q, v.blk, v.hi) && ListsOk(v'.q, v'.blk, v'.hi) && e == Node(b + Pow2(TOP))
    requires v.q[Head(TOP)] != [] && v.q[Head(TOP)][0] == Node(b) && b != v.hi
    requires v'.hi == v.hi && forall x :: x in v.blk && x != b ==> x in v'.blk && v'.blk[x] == v.blk[x]
    requires v'.q[Head(TOP)] != [] && v'.q[Head(TOP)][0] == e
    ensures e in v.q[Head(TOP)]
  {
    var c, t, t' := b + Pow2(TOP), v.q[Head(TOP)], v'.q[Head(TOP)];
    assert Node(c) in t' && Node(b) in t;
    assert Listed(v'.blk, v'.hi, TOP, c) && Listed(v.blk, v.hi, TOP, b);
    assert Last(v.blk, b) == c;
  }

  /** But a node already on the list cannot be added to it: the new list would run back into it. */
  lemma RunsBack(m: Mem, h: int, e: int, t: seq<int>, t': seq<int>)
    requires Spaced(h, t) && Ring(m, NODE, h, t') && t' != [] && t'[0] == e && Reentered(m, h, e, t) && t != [] && t[0] != e
    ensures e !in t
  {
    if e in t {
      var j :| 0 <= j < |t| && t[j] == e;
      Chase(m, h, e, t, t', j, j);
      Distinct(h, t', 1, j + 1);
    }
  }

  /** Following forward links from the reseeded node runs through the old list. */
  lemma {:induction false} Chase(m: Mem, h: int, e: int, t: seq<int>, t': seq<int>, j: nat, i: nat)
    requires Spaced(h, t) && Ring(m, NODE, h, t') && t' != [] && t'[0] == e && Reentered(m, h, e, t)
    requires 1 <= i <= j < |t| && t[j] == e
    ensures i < |t'| && t'[i] == t[i]
    decreases i
  {
    if i > 1 {
      Chase(m, h, e, t, t', j, i - 1);
      Distinct(h, t, i, j + 1);
    }
    assert Link(m, NODE, h, t', i);
    Distinct(h, t, 0, i + 1);
  }

  /** The page array as buddy_init leaves it: from lo on, every page carries the top-order mark and
      a zero count, and no page carries a mark of a lower order. */
  ghost predicate FreshPages(pages: Pages, lo: int) {
    && (forall i :: lo <= i ==> Pg(pages, i).count == 0 && !Pg(pages, i).resvd)
    && (forall i, k :: 0 <= k < TOP ==> !Marked(pages, i, k))
  }

  /** Empty lists for the orders below k. */
  ghost function EmptyLists(k: int): Queues {
    if k <= 0 then map[] else EmptyLists(k - 1)[Head(k - 1) := []]
  }

  lemma {:induction false} EmptyListsAre(k: int, h: int)
    requires 0 <= k <= TOP + 1
    ensures h in EmptyLists(k) <==> IsHead(h) && h < Head(k)
    ensures h in EmptyLists(k) ==> EmptyLists(k)[h] == []
    decreases k
  {
    if k > 0 {
      EmptyListsAre(k - 1, h);
      assert IsHead(Head(k - 1));
    }
  }

  /** Exactly one list per order, all empty but the top one, which holds the first chunk. */
  ghost predicate InitialLists(q: Queues, lo: int) {
    && (forall h :: h in q <==> IsHead(h))
    && (forall h :: h in q ==> q[h] == if h == Head(TOP) then [Node(lo)] else [])
  }

  method InitLists(m0: Mem, lo: int) returns (m: Mem, ghost q: Queues)
    ensures Family(m, q) && InitialLists(q, lo)
  {
    m := m0;
    var k := 0;
    while k <= TOP
      invariant 0 <= k <= TOP + 1 && Family(m, EmptyLists(k))
    {
      EmptyIsLoose(k, Head(k));
      m := ListInit(m, Head(k), EmptyLists(k));
      k := k + 1;
    }
    q := EmptyLists(k);
    EmptyIsLoose(k, Node(lo));
    forall h ensures (h in q <==> IsHead(h)) && (h in q ==> q[h] == []) { EmptyListsAre(k, h); }
    assert IsHead(Head(TOP));
    m := ListAdd(m, Head(TOP), Node(lo), q);
    assert [Node(lo)] + q[Head(TOP)] == [Node(lo)];
    q := q[Head(TOP) := [Node(lo)]];
  }

  lemma EmptyIsLoose(k: int, x: int)
    requires 0 <= k <= TOP + 1 && Aligned(x) && (x == Head(k) || !IsHead(x))
    ensures Loose(EmptyLists(k), x)
  {
    forall h ensures h in EmptyLists(k) ==> EmptyLists(k)[h] == [] && h != x { EmptyListsAre(k, h); }
  }

  lemma InitOk(s: State, v: View, lo: int)
    requires FreshPages(s.pages, lo) && v.blk == map[] && v.hi == lo && |s.num| == TOP + 1 && forall k :: 0 <= k < TOP ==> s.num[k] == 0
    requires Family(s.mem, v.q) && InitialLists(v.q, lo)
    ensures Ok(s, v, lo) && Head(TOP) in v.q && v.q[Head(TOP)] == [Node(lo)]
  {
    forall k | 0 <= k <= TOP ensures Head(k) in v.q { assert IsHead(Head(k)); }
    assert IsNode(Node(lo));
    Seal(s, v, lo);
  }

  class Allocator {
    var st: State
    const lo: int           // first page handed to the allocator
    ghost var v: View

    ghost predicate Valid()
      reads this
    {
      Ok(st, v, lo)
    }

    constructor (m: Mem, pages: Pages, num: seq<int>, first: int)
      requires FreshPages(pages, first) && |num| == TOP + 1 && forall k :: 0 <= k < TOP ==> num[k] == 0
      ensures Valid() && lo == first && v.hi == first && v.blk == map[] && Head(TOP) in v.q && v.q[Head(TOP)] == [Node(first)]
    {
      var mem;
      ghost var q;
      mem, q := InitLists(m, first);
      var s := State(mem, pages, num);
      ghost var w := View(q, map[], first);
      InitOk(s, w, first);
      st, lo, v := s, first, w;
    }

    method AllocPages(order: nat) returns (found: bool, p: int)
      requires Valid() && FrontierFirst(v, order)
      modifies this
      ensures Valid() && (found <==> order <= TOP)
      ensures !found ==> st == old(st) && v == old(v)
      ensures found ==> exists c :: FirstList(old(v).q, order, c) && old(v).q[Head(c)][0] == Node(p)
                                    && v.hi == if c == TOP then old(v).hi + Pow2(TOP) else old(v).hi
      ensures found ==> p !in Held(old(v).blk) && Held(v.blk) == Held(old(v).blk)[p := order]
      ensures found ==> exists c :: FirstList(old(v).q, order, c) && SplitInto(old(v).blk, v.blk, p, order, c)
    {
      var s;
      ghost var c, w;
      s, found, p, c, w := AllocBlock(st, order, v, lo);
      st, v := s, w;
    }

    method FreePages(order: int, p: int)
      requires Valid() && (Pg(st.pages, p).buddy || (p in Held(v.blk) && Held(v.blk)[p] == order))
      modifies this
      ensures Valid()
      ensures if old(Pg(st.pages, p).buddy) then st == old(st) && v == old(v)
              else Held(v.blk) == Held(old(v).blk) - {p} && v.blk == Coalesce(old(v).blk[p := Block(order, Raw)], p) && v.hi == old(v).hi
                   && (order == TOP ==> FirstIs(v.q, TOP, p))
      ensures !old(Pg(st.pages, p).buddy) ==> exists x :: Settled(old(v).blk, v.blk, p, x) && FirstIs(v.q, v.blk[x].order, x)
    {
      var s;
      ghost var w;
      s, w := FreeBlock(st, order, p, v, lo);
      st, v := s, w;
    }
  }

  /** A run that reaches the state the precondition of AllocPages excludes: take the first top-order
      block and give it back. */
  method ReachRetake(m: Mem, pages: Pages, num: seq<int>, first: int) returns (a: Allocator)
    requires FreshPages(pages, first) && |num| == TOP + 1 && forall k :: 0 <= k < TOP ==> num[k] == 0
    ensures a.Valid() && FirstList(a.v.q, TOP, TOP) && !FrontierFirst(a.v, TOP)
  {
    a := new Allocator(m, pages, num, first);
    var found, p := a.AllocPages(TOP);
    assert p in Held(a.v.blk);
    assert !Pg(a.st.pages, p).buddy by { Open(a.st, a.v, a.lo); }
    a.FreePages(TOP, p);
  }
}
