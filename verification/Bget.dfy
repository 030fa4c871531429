/** The allocator of Kernel/bget.c over flat memory. The `assert` statements taken over from the
    source are proved where it states them. */
module Bget {
  import opened Folding
  import opened Words
  import opened Rings
  import opened HeapSpec
  import opened Seqs

  // ----- Header words across one operation -----

  lemma TakeBack(m: Mem, m': Mem, blk: Blocks, b: int, n: int, a: int)
    requires Disjoint(blk) && Takeable(blk, b, n) && a in blk && a != Next(blk, b)
    requires BackOk(m, blk, a) && Rd(m', a) == Rd(m, a)
    ensures BackOk(m', Take(blk, b, n), a)
  {
    var p := a - Rd(m, a);
    if Rd(m, a) != 0 {
      assert p != b;
      TakeOther(blk, b, n, p);
    }
  }

  lemma TakeForward(m: Mem, m': Mem, blk: Blocks, b: int, n: int, a: int)
    requires Tagged(m, blk) && Sized(blk) && Disjoint(blk) && Closed(blk) && Takeable(blk, b, n) && a in blk && a != b && blk[a].kind.Free?
    requires forall c :: c in blk && c != Next(blk, b) ==> Rd(m', c) == Rd(m, c)
    ensures Rd(m', Next(blk, a)) == blk[a].size
  {
    assert Next(blk, a) in blk && Next(blk, a) != Next(blk, b);
  }

  lemma TakeBacks(m: Mem, m': Mem, blk: Blocks, b: int, n: int, a: int)
    requires Disjoint(blk) && Takeable(blk, b, n) && a in Take(blk, b, n) && (a in blk ==> BackOk(m, blk, a))
    requires Taken(blk, b, n) != b ==> Rd(m', Taken(blk, b, n)) == Taken(blk, b, n) - b
    requires Rd(m', Next(blk, b)) == 0
    requires a in blk && a != Next(blk, b) ==> Rd(m', a) == Rd(m, a)
    ensures BackOk(m', Take(blk, b, n), a)
  {
    if a in blk {
      if a != Next(blk, b) { TakeBack(m, m', blk, b, n, a); }
    } else {
      TakeDisjoint(blk, b, n);
    }
  }

  lemma TakeForwards(m: Mem, m': Mem, blk: Blocks, b: int, n: int, a: int)
    requires Tagged(m, blk) && Sized(blk) && Closed(blk) && Disjoint(blk) && Takeable(blk, b, n)
    requires a in Take(blk, b, n) && Take(blk, b, n)[a].kind.Free?
    requires Taken(blk, b, n) != b ==> Rd(m', Taken(blk, b, n)) == Taken(blk, b, n) - b
    requires forall c :: c in blk && c != Next(blk, b) ==> Rd(m', c) == Rd(m, c)
    ensures Rd(m', Next(Take(blk, b, n), a)) == Take(blk, b, n)[a].size
  {
    TakeDisjoint(blk, b, n);
    if a != b { TakeForward(m, m', blk, b, n, a); }
  }

  lemma TaggedTake(m: Mem, m': Mem, blk: Blocks, b: int, n: int)
    requires Tagged(m, blk) && Sized(blk) && Closed(blk) && Disjoint(blk) && Takeable(blk, b, n)
    requires var blk', t := Take(blk, b, n), Taken(blk, b, n);
             && (forall a :: a in blk' ==> Rd(m', a + 4) == Tag(blk'[a]))
             && (t != b ==> Rd(m', t) == t - b)
    requires Rd(m', Next(blk, b)) == 0
    requires forall a :: a in blk && a != Next(blk, b) ==> Rd(m', a) == Rd(m, a)
    ensures Tagged(m', Take(blk, b, n))
  {
    var blk' := Take(blk, b, n);
    forall a {:trigger BackOk(m', blk', a)} | a in blk' ensures BackOk(m', blk', a) {
      if a in blk { assert BackOk(m, blk, a); }
      TakeBacks(m, m', blk, b, n, a);
    }
    forall a {:trigger Next(blk', a)} | a in blk' && blk'[a].kind.Free? ensures Rd(m', Next(blk', a)) == blk'[a].size {
      TakeForwards(m, m', blk, b, n, a);
    }
  }

  lemma BackMerge(m: Mem, m': Mem, blk: Blocks, pools: Pools, b: int, x: int, y: int, a: int)
    requires Tagged(m, blk) && Tiled(blk, pools) && Span(blk, b, x, y)
    requires a in blk && !(x < a <= y) && Rd(m', a) == Rd(m, a)
    ensures BackOk(m', Merge(blk, x, y), a)
  {
    SpanFacts(blk, pools, b, x, y);
    if Rd(m, a) != 0 {
      assert BackOk(m, blk, a);
      var p := a - Rd(m, a);
      assert Next(blk, p) == a;
      assert a != x;
      assert !(x <= p < y);
    }
  }

  lemma TaggedMerge(m: Mem, m': Mem, blk: Blocks, pools: Pools, b: int, x: int, y: int)
    requires Tagged(m, blk) && Tiled(blk, pools) && Span(blk, b, x, y)
    requires Rd(m', x + 4) == y - x && Rd(m', y) == y - x
    requires forall a :: a in blk && !(x <= a < y) ==> Rd(m', a + 4) == Rd(m, a + 4)
    requires forall a :: a in blk && !(x < a <= y) ==> Rd(m', a) == Rd(m, a)
    ensures Tagged(m', Merge(blk, x, y))
  {
    var blk' := Merge(blk, x, y);
    SpanFacts(blk, pools, b, x, y);
    MergeShape(blk, pools, b, x, y);
    forall a {:trigger BackOk(m', blk', a)} | a in blk' ensures BackOk(m', blk', a) {
      if a != y { BackMerge(m, m', blk, pools, b, x, y, a); }
    }
    forall a {:trigger Next(blk', a)} | a in blk' && blk'[a].kind.Free? ensures Rd(m', Next(blk', a)) == blk'[a].size {
      if a != x {
        MergeNext(blk, pools, b, x, y, a);
      }
    }
  }

  /** The words of every live buffer other than `gone` are untouched. */
  ghost predicate SameData(m: Mem, m': Mem, blk: Blocks, gone: int) {
    forall u, w :: DataWord(blk, u, w) && u != gone ==> Rd(m', w) == Rd(m, w)
  }

  /** w is the address of a word of the live buffer in block u. */
  ghost predicate DataWord(blk: Blocks, u: int, w: int) {
    u in blk && blk[u].kind.Used? && u + HDR <= w && w + 4 <= u + blk[u].size && (w - u) % 4 == 0
  }

  /** w lies in the header of a block, in block `gone`, in the list head, or in a free block. */
  ghost predicate Private(blk: Blocks, h: int, gone: int, w: int) {
    || HeaderWord(blk, w) || (gone in blk && gone <= w < gone + blk[gone].size) || h <= w < h + 16
    || exists a :: a in blk && blk[a].kind.Free? && a <= w < a + blk[a].size
  }

  lemma DataFrame(m: Mem, m': Mem, blk: Blocks, h: int, gone: int, touched: set<int>)
    requires Sized(blk) && Disjoint(blk) && HeadApart(blk, h)
    requires SameExcept(m, m', touched) && forall w :: w in touched ==> Private(blk, h, gone, w)
    ensures SameData(m, m', blk, gone)
  {
    forall u, w | DataWord(blk, u, w) && u != gone ensures w !in touched {
      assert !Private(blk, h, gone, w);
    }
  }

  // ----- The free list -----

  /** Dechain x from the free list. */
  method Unlink(m: Mem, x: int, ghost h: int, ghost fl: seq<int>) returns (m': Mem)
    requires Ring(m, QLINKS, h, fl) && x in fl
    ensures Ring(m', QLINKS, h, Without(fl, x))
    ensures var p, q := Rd(m, x + 12), Rd(m, x + 8);
            (p == h || p in fl) && (q == h || q in fl) && SameExcept(m, m', {p + 8, q + 12})
  {
    ghost var k :| 0 <= k < |fl| && fl[k] == x;
    var flink, blink := Rd(m, x + 8), Rd(m, x + 12);
    assert Link(m, QLINKS, h, fl, k) && Link(m, QLINKS, h, fl, k + 1);
    assert flink == At(h, fl, k + 2) && blink == At(h, fl, k);
    assert Rd(m, blink + 8) == x && Rd(m, flink + 12) == x;  // lines 597-598 and 743-744 of bget.c
    forall i | 0 <= i < |fl| && i != k ensures fl[i] != x { Distinct(h, fl, i + 1, k + 1); }
    if |fl| > 1 { Distinct(h, fl, k, if k + 1 == |fl| then 0 else k + 2); }
    m' := m[blink + 8 := flink];
    m' := m'[flink + 12 := blink];
    assert SameExcept(m, m', {blink + 8, flink + 12});
    RingRemove(m, m', QLINKS, h, fl, k);
    WithoutAt(fl, k);
  }

  /** Chain b at the tail of the free list. */
  method LinkTail(m: Mem, h: int, b: int, ghost fl: seq<int>) returns (m': Mem)
    requires Ring(m, QLINKS, h, fl)
    requires Apart(h, b) && forall x :: x in fl ==> Apart(x, b)
    ensures Ring(m', QLINKS, h, fl + [b])
    ensures var p := Rd(m, h + 12); (p == h || p in fl) && SameExcept(m, m', {p + 8, h + 12, b + 8, b + 12})
  {
    assert Link(m, QLINKS, h, fl, 0) && Link(m, QLINKS, h, fl, |fl|);
    var last := Rd(m, h + 12);
    assert last == At(h, fl, |fl|) && (last == h || last in fl);
    assert Rd(m, last + 8) == h && Rd(m, Rd(m, h + 8) + 12) == h;  // lines 722-723 and 794-795 of bget.c
    m' := m[b + 8 := h];
    m' := m'[b + 12 := Rd(m', h + 12)];
    m' := m'[h + 12 := b];
    m' := m'[Rd(m', b + 12) + 8 := b];
    assert SameExcept(m, m', {last + 8, h + 12, b + 8, b + 12});
    assert Apart(last, b);
    RingInsert(m, m', QLINKS, h, fl, |fl|, b);
    assert InsertAt(fl, |fl|, b) == fl + [b];
  }

  // ----- The allocator -----

  function SizeOf(blk: Blocks, a: int): int {
    if a in blk then blk[a].size else 0
  }

  /** The i-th free block is the one best fit picks for n bytes: the first of least sufficient size. */
  ghost predicate BestFit(blk: Blocks, fl: seq<int>, n: int, i: nat)
  {
    && i < |fl| && n <= SizeOf(blk, fl[i])
    && (forall j :: 0 <= j < i && n <= SizeOf(blk, fl[j]) ==> SizeOf(blk, fl[i]) < SizeOf(blk, fl[j]))
    && (forall j :: i < j < |fl| && n <= SizeOf(blk, fl[j]) ==> SizeOf(blk, fl[i]) <= SizeOf(blk, fl[j]))
  }

  /** Header words of blocks and link words of free blocks never coincide. */
  lemma LinksFrame(m: Mem, m': Mem, blk: Blocks, h: int, fl: seq<int>, touched: set<int>)
    requires Sized(blk) && Disjoint(blk) && HeadApart(blk, h)
    requires Ring(m, QLINKS, h, fl) && forall x :: x in fl ==> x in blk && !blk[x].kind.End?
    requires SameExcept(m, m', touched)
    requires forall w :: w in touched ==> HeaderWord(blk, w) || Inside(blk, w)
    ensures Ring(m', QLINKS, h, fl)
  {
    forall x | x == h || x in fl ensures x + 8 !in touched && x + 12 !in touched {}
    RingFrame(m, m', QLINKS, h, fl);
  }

  ghost predicate HeaderWord(blk: Blocks, w: int) {
    w in blk || w - 4 in blk
  }

  /** w lies in some block, past its header and link words. */
  ghost predicate Inside(blk: Blocks, w: int) {
    exists a :: a in blk && a + 16 <= w < a + blk[a].size
  }

  lemma SplitTags(m: Mem, m': Mem, blk: Blocks, b: int, n: int)
    requires Tagged(m, blk) && Sized(blk) && Closed(blk) && Disjoint(blk) && Takeable(blk, b, n) && Taken(blk, b, n) != b
    requires var t, c := Taken(blk, b, n), Next(blk, b);
             && SameExcept(m, m', {b + 4, t, t + 4, c})
             && Rd(m', b + 4) == t - b && Rd(m', t) == t - b && Rd(m', t + 4) == -n && Rd(m', c) == 0
    ensures Tagged(m', Take(blk, b, n))
  {
    var blk', t, c := Take(blk, b, n), Taken(blk, b, n), Next(blk, b);
    assert c in blk;
    forall a | a in blk && a != b ensures a + 4 !in {b + 4, t, t + 4, c} {}
    forall a | a in blk && a != c ensures a !in {b + 4, t, t + 4, c} {}
    TaggedTake(m, m', blk, b, n);
  }

  lemma SplitKeeps(m: Mem, m': Mem, blk: Blocks, pools: Pools, h: int, fl: seq<int>, b: int, n: int)
    requires Inv(m, blk, pools, h, fl) && Takeable(blk, b, n) && Taken(blk, b, n) != b
    requires var t, c := Taken(blk, b, n), Next(blk, b);
             && SameExcept(m, m', {b + 4, t, t + 4, c})
             && Rd(m', b + 4) == t - b && Rd(m', t) == t - b && Rd(m', t + 4) == -n && Rd(m', c) == 0
    ensures Inv(m', Take(blk, b, n), pools, h, fl) && SameData(m, m', blk, 0)
  {
    TiledTake(blk, pools, b, n);
    SplitTags(m, m', blk, b, n);
    var t, c := Taken(blk, b, n), Next(blk, b);
    assert c in blk;
    SplitLinks(m, m', blk, h, fl, b, t, c);
    SplitData(m, m', blk, h, b, t, c);
    SplitFreeSet(blk, fl, b, n);
    HeadStaysApart(blk, h, b, n);
  }

  lemma SplitLinks(m: Mem, m': Mem, blk: Blocks, h: int, fl: seq<int>, b: int, t: int, c: int)
    requires Sized(blk) && Disjoint(blk) && HeadApart(blk, h) && b in blk && c in blk
    requires Ring(m, QLINKS, h, fl) && forall x :: x in fl ==> x in blk && !blk[x].kind.End?
    requires b + 16 <= t && t + 8 <= b + blk[b].size && SameExcept(m, m', {b + 4, t, t + 4, c})
    ensures Ring(m', QLINKS, h, fl)
  {
    assert Inside(blk, t) && Inside(blk, t + 4);
    LinksFrame(m, m', blk, h, fl, {b + 4, t, t + 4, c});
  }

  lemma SplitFreeSet(blk: Blocks, fl: seq<int>, b: int, n: int)
    requires Sized(blk) && Closed(blk) && Disjoint(blk) && Takeable(blk, b, n) && Taken(blk, b, n) != b
    requires forall x :: x in fl <==> x in blk && blk[x].kind.Free?
    ensures var blk' := Take(blk, b, n); forall x :: x in fl <==> x in blk' && blk'[x].kind.Free?
  {
    TakeShape(blk, b, n);
  }

  lemma HeadStaysApart(blk: Blocks, h: int, b: int, n: int)
    requires HeadApart(blk, h) && Takeable(blk, b, n)
    ensures HeadApart(Take(blk, b, n), h)
  {
  }

  lemma SplitData(m: Mem, m': Mem, blk: Blocks, h: int, b: int, t: int, c: int)
    requires Sized(blk) && Disjoint(blk) && HeadApart(blk, h) && b in blk && c in blk && blk[b].kind.Free?
    requires b < t < b + blk[b].size - 8 && SameExcept(m, m', {b + 4, t, t + 4, c})
    ensures SameData(m, m', blk, 0)
  {
    assert Private(blk, h, 0, t) && Private(blk, h, 0, t + 4);
    DataFrame(m, m', blk, h, 0, {b + 4, t, t + 4, c});
  }

  lemma WholeTags(m: Mem, m': Mem, blk: Blocks, h: int, b: int, n: int, p: int, q: int)
    requires Tagged(m, blk) && Sized(blk) && Closed(blk) && Disjoint(blk) && Takeable(blk, b, n) && Taken(blk, b, n) == b
    requires HeadApart(blk, h) && LinkHolder(blk, h, p) && LinkHolder(blk, h, q)
    requires SameExcept(m, m', {p + 8, q + 12, b + 4, Next(blk, b)})
    requires Rd(m', b + 4) == -blk[b].size && Rd(m', Next(blk, b)) == 0
    ensures Tagged(m', Take(blk, b, n))
  {
    var c := Next(blk, b);
    assert c in blk;
    forall a | a in blk ensures a !in {p + 8, q + 12, b + 4} && a + 4 !in {p + 8, q + 12, c} {}
    TaggedTake(m, m', blk, b, n);
  }

  /** x has link words of the free list: it is the list head or a free block. */
  ghost predicate LinkHolder(blk: Blocks, h: int, x: int) {
    x == h || (x in blk && blk[x].kind.Free?)
  }

  /** The list without block b holds exactly the blocks still free. */
  lemma WholeListed(m1: Mem, m': Mem, blk: Blocks, h: int, fl: seq<int>, b: int, n: int)
    requires Sized(blk) && Disjoint(blk) && HeadApart(blk, h) && Takeable(blk, b, n) && Taken(blk, b, n) == b && Next(blk, b) in blk
    requires forall x :: x in fl <==> x in blk && blk[x].kind.Free?
    requires Ring(m1, QLINKS, h, Without(fl, b)) && SameExcept(m1, m', {b + 4, Next(blk, b)})
    ensures Listed(m', Take(blk, b, n), h, Without(fl, b))
  {
    var fl' := Without(fl, b);
    forall x ensures x in fl' <==> x in fl && x != b { WithoutIn(fl, b, x); }
    LinksFrame(m1, m', blk, h, fl', {b + 4, Next(blk, b)});
  }

  lemma WholeKeeps(m: Mem, m1: Mem, m': Mem, blk: Blocks, pools: Pools, h: int, fl: seq<int>, b: int, n: int)
    requires Inv(m, blk, pools, h, fl) && Takeable(blk, b, n) && Taken(blk, b, n) == b
    requires Ring(m1, QLINKS, h, Without(fl, b))
    requires var p, q := Rd(m, b + 12), Rd(m, b + 8);
             (p == h || p in fl) && (q == h || q in fl) && SameExcept(m, m1, {p + 8, q + 12})
    requires SameExcept(m1, m', {b + 4, Next(blk, b)}) && Rd(m', b + 4) == -blk[b].size && Rd(m', Next(blk, b)) == 0
    ensures Inv(m', Take(blk, b, n), pools, h, Without(fl, b)) && SameData(m, m', blk, 0)
  {
    var c, p, q := Next(blk, b), Rd(m, b + 12), Rd(m, b + 8);
    assert c in blk && LinkHolder(blk, h, p) && LinkHolder(blk, h, q);
    SameThrough(m, m1, m', {p + 8, q + 12}, {b + 4, c}, {p + 8, q + 12, b + 4, c});
    WholeTags(m, m', blk, h, b, n, p, q);
    WholeData(m, m', blk, h, b, p, q);
    WholeListed(m1, m', blk, h, fl, b, n);
    TiledTake(blk, pools, b, n);
    HeadStaysApart(blk, h, b, n);
  }

  lemma WholeData(m: Mem, m': Mem, blk: Blocks, h: int, b: int, p: int, q: int)
    requires Sized(blk) && Disjoint(blk) && HeadApart(blk, h) && LinkHolder(blk, h, p) && LinkHolder(blk, h, q)
    requires b in blk && Next(blk, b) in blk && SameExcept(m, m', {p + 8, q + 12, b + 4, Next(blk, b)})
    ensures SameData(m, m', blk, 0)
  {
    LinkWordPrivate(blk, h, 0, p);
    LinkWordPrivate(blk, h, 0, q);
    DataFrame(m, m', blk, h, 0, {p + 8, q + 12, b + 4, Next(blk, b)});
  }

  lemma LinkWordPrivate(blk: Blocks, h: int, gone: int, x: int)
    requires Sized(blk) && LinkHolder(blk, h, x)
    ensures Private(blk, h, gone, x + 8) && Private(blk, h, gone, x + 12)
  {
  }

  /** The branch of bget that splits: the caller gets the tail of free block b. */
  method Split(m: Mem, b: int, size: int, ghost blk: Blocks, ghost pools: Pools, ghost h: int, ghost fl: seq<int>)
    returns (m': Mem, buf: int)
    requires Inv(m, blk, pools, h, fl) && Takeable(blk, b, size) && blk[b].size - size > MIN_DATA + HDR
    ensures Inv(m', Take(blk, b, size), pools, h, fl) && buf == Taken(blk, b, size) + HDR && SameData(m, m', blk, 0)
  {
    var ba := b + (Rd(m, b + 4) - size);
    var bn := ba + size;
    assert bn == Next(blk, b) && bn in blk;
    assert Rd(m, bn) == Rd(m, b + 4);  // line 576 of bget.c
    m' := m[b + 4 := Rd(m, b + 4) - size];
    m' := m'[ba := Rd(m', b + 4)];
    m' := m'[ba + 4 := -size];
    m' := m'[bn := 0];
    SplitKeeps(m, m', blk, pools, h, fl, b, size);
    buf := ba + HDR;
  }

  /** The branch of bget that hands out free block b whole. */
  method TakeWhole(m: Mem, b: int, size: int, ghost blk: Blocks, ghost pools: Pools, ghost h: int, ghost fl: seq<int>)
    returns (m': Mem, buf: int)
    requires Inv(m, blk, pools, h, fl) && Takeable(blk, b, size) && blk[b].size - size <= MIN_DATA + HDR
    ensures Inv(m', Take(blk, b, size), pools, h, Without(fl, b)) && buf == Taken(blk, b, size) + HDR && SameData(m, m', blk, 0)
  {
    var ba := b + Rd(m, b + 4);
    assert ba == Next(blk, b) && ba in blk;
    assert Rd(m, ba) == Rd(m, b + 4);  // line 592 of bget.c
    var m1 := Unlink(m, b, h, fl);
    m' := m1[b + 4 := -Rd(m1, b + 4)];
    m' := m'[ba := 0];
    WholeKeeps(m, m1, m', blk, pools, h, fl, b, size);
    buf := b + 8;
  }

  /** w is a link word of the list head, of a free block or of block b. */
  ghost predicate LinkWord(blk: Blocks, h: int, b: int, w: int) {
    HasLinks(blk, h, b, w - 8) || HasLinks(blk, h, b, w - 12)
  }

  ghost predicate HasLinks(blk: Blocks, h: int, b: int, z: int) {
    z == h || (z in blk && (z == b || blk[z].kind.Free?))
  }

  lemma ReleaseKeeps(m: Mem, m': Mem, blk: Blocks, pools: Pools, h: int, b: int, x: int, y: int, links: set<int>)
    requires Tiled(blk, pools) && Tagged(m, blk) && HeadApart(blk, h) && Span(blk, b, x, y)
    requires SameExcept(m, m', {x + 4, y} + links) && forall w :: w in links ==> LinkWord(blk, h, b, w)
    requires Rd(m', x + 4) == y - x && Rd(m', y) == y - x
    ensures Tagged(m', Merge(blk, x, y)) && SameData(m, m', blk, b)
  {
    SpanFacts(blk, pools, b, x, y);
    forall a | a in blk ensures a !in links && a + 4 !in links && a != x + 4 && a + 4 != y {
      HeaderNotLink(blk, h, b, a);
    }
    TaggedMerge(m, m', blk, pools, b, x, y);
    forall w | w in {x + 4, y} + links ensures Private(blk, h, b, w) {
      if w in links { LinkWordIsPrivate(blk, h, b, w); }
    }
    DataFrame(m, m', blk, h, b, {x + 4, y} + links);
  }

  lemma LinkWordIsPrivate(blk: Blocks, h: int, b: int, w: int)
    requires Sized(blk) && b in blk && blk[b].kind.Used? && LinkWord(blk, h, b, w)
    ensures Private(blk, h, b, w)
  {
    var z := if HasLinks(blk, h, b, w - 8) then w - 8 else w - 12;
    assert z in blk ==> z <= w < z + blk[z].size || blk[z].kind.End?;
  }

  lemma HeaderNotLink(blk: Blocks, h: int, b: int, a: int)
    requires Sized(blk) && Disjoint(blk) && HeadApart(blk, h) && a in blk && b in blk && blk[b].kind.Used?
    ensures !LinkWord(blk, h, b, a) && !LinkWord(blk, h, b, a + 4)
  {
  }

  lemma LinkWordsOf(blk: Blocks, h: int, b: int, z: int)
    requires HasLinks(blk, h, b, z)
    ensures LinkWord(blk, h, b, z + 8) && LinkWord(blk, h, b, z + 12)
  {
  }

  /** The list after releasing b: b is appended unless it melts into the free block before it, and
      the free block after it is dechained. */
  ghost function ReleasedList(blk: Blocks, fl: seq<int>, b: int, x: int): seq<int>
    requires b in blk
  {
    Without(if x == b then fl + [b] else fl, if Next(blk, b) in fl then Next(blk, b) else 0)
  }

  lemma ReleasedListed(m': Mem, blk: Blocks, pools: Pools, h: int, fl: seq<int>, b: int, x: int, y: int)
    requires Tiled(blk, pools) && Span(blk, b, x, y)
    requires forall z :: z in fl <==> z in blk && blk[z].kind.Free?
    requires Ring(m', QLINKS, h, ReleasedList(blk, fl, b, x))
    ensures Listed(m', Merge(blk, x, y), h, ReleasedList(blk, fl, b, x))
  {
    SpanFacts(blk, pools, b, x, y);
    var fl1, c, fl' := if x == b then fl + [b] else fl, Next(blk, b), ReleasedList(blk, fl, b, x);
    var blk' := Merge(blk, x, y);
    forall z ensures z in fl' <==> z in blk' && blk'[z].kind.Free? {
      WithoutIn(fl1, if c in fl then c else 0, z);
    }
  }

  /** How far brel has come: the free list is fl, the block at x runs up to `end`, and apart from that size only link
      words of the list were written. */
  ghost predicate Reached(m: Mem, m1: Mem, blk: Blocks, h: int, b: int, x: int, end: int, fl: seq<int>, links: set<int>) {
    && Ring(m1, QLINKS, h, fl) && Nodes(blk, h, b, fl)
    && SameExcept(m, m1, {x + 4} + links) && Rd(m1, x + 4) == end - x && (forall w :: w in links ==> LinkWord(blk, h, b, w))
  }

  /** The same, folded. */
  ghost predicate Midway(m: Mem, m1: Mem, blk: Blocks, h: int, b: int, x: int, end: int, fl: seq<int>, links: set<int>) {
    forall t :: Token(t) ==> Reached(m, m1, blk, h, b, x, end, fl, links)
  }

  lemma Unfold(m: Mem, m1: Mem, blk: Blocks, h: int, b: int, x: int, end: int, fl: seq<int>, links: set<int>)
    requires Midway(m, m1, blk, h, b, x, end, fl, links)
    ensures Reached(m, m1, blk, h, b, x, end, fl, links)
  {
    assert Token(0);
  }

  /** The headers of the other blocks are as they were. */
  lemma MidwayHeader(m: Mem, m1: Mem, blk: Blocks, h: int, b: int, x: int, end: int, fl: seq<int>, links: set<int>, a: int)
    requires Midway(m, m1, blk, h, b, x, end, fl, links)
    requires Sized(blk) && Disjoint(blk) && HeadApart(blk, h) && b in blk && blk[b].kind.Used? && a in blk && x in blk && a != x
    ensures Rd(m1, a) == Rd(m, a) && Rd(m1, a + 4) == Rd(m, a + 4) && Rd(m1, x + 4) == end - x
  {
    Unfold(m, m1, blk, h, b, x, end, fl, links);
    SameHeader(m, m1, blk, h, b, x, links, a);
  }

  /** Every node of the list can hold links while b is being released. */
  ghost predicate Nodes(blk: Blocks, h: int, b: int, fl: seq<int>) {
    forall z :: z in fl ==> z in blk && HasLinks(blk, h, b, z)
  }

  /** brel, no free block before b: b becomes a free block of its own, at the tail of the list. */
  method FreeAlone(m: Mem, b: int, h: int, ghost blk: Blocks, ghost fl: seq<int>) returns (m': Mem, ghost links: set<int>)
    requires Sized(blk) && Disjoint(blk) && HeadApart(blk, h) && b in blk && blk[b].kind.Used? && Rd(m, b + 4) == -blk[b].size
    requires Ring(m, QLINKS, h, fl) && Nodes(blk, h, b, fl) && b !in fl
    ensures Ring(m', QLINKS, h, fl + [b]) && Nodes(blk, h, b, fl + [b])
    ensures SameExcept(m, m', {b + 4} + links) && Rd(m', b + 4) == blk[b].size
    ensures forall w :: w in links ==> LinkWord(blk, h, b, w)
  {
    assert forall z :: z in fl ==> Apart(z, b);
    var m1 := LinkTail(m, h, b, fl);
    ghost var p := Rd(m, h + 12);
    links := {p + 8, h + 12, b + 8, b + 12};
    LinkWordsOf(blk, h, b, p);
    LinkWordsOf(blk, h, b, h);
    LinkWordsOf(blk, h, b, b);
    HeaderNotLink(blk, h, b, b);
    assert Rd(m1, b + 4) == Rd(m, b + 4);
    m' := m1[b + 4 := -Rd(m1, b + 4)];
    LinksFrame(m1, m', blk, h, fl + [b], {b + 4});
  }

  /** brel, free block at c after the block at x: c is dechained and its bytes go to x. */
  method Swallow(m: Mem, x: int, c: int, ghost b: int, ghost h: int, ghost blk: Blocks, ghost fl: seq<int>)
    returns (m': Mem, ghost links: set<int>)
    requires Sized(blk) && Disjoint(blk) && HeadApart(blk, h) && b in blk && blk[b].kind.Used? && x in blk
    requires Ring(m, QLINKS, h, fl) && Nodes(blk, h, b, fl) && c in fl && c != b && Rd(m, c + 4) == blk[c].size
    ensures Ring(m', QLINKS, h, Without(fl, c)) && Nodes(blk, h, b, Without(fl, c))
    ensures SameExcept(m, m', {x + 4} + links) && Rd(m', x + 4) == Rd(m, x + 4) + blk[c].size
    ensures forall w :: w in links ==> LinkWord(blk, h, b, w)
  {
    var m1 := Unlink(m, c, h, fl);
    ghost var p, q := Rd(m, c + 12), Rd(m, c + 8);
    links := {p + 8, q + 12};
    LinkWordsOf(blk, h, b, p);
    LinkWordsOf(blk, h, b, q);
    HeaderNotLink(blk, h, b, x);
    HeaderNotLink(blk, h, b, c);
    assert Rd(m1, x + 4) == Rd(m, x + 4) && Rd(m1, c + 4) == Rd(m, c + 4);
    m' := m1[x + 4 := Rd(m1, x + 4) + Rd(m1, c + 4)];
    forall z ensures z in Without(fl, c) <==> z in fl && z != c { WithoutIn(fl, c, z); }
    LinksFrame(m1, m', blk, h, Without(fl, c), {x + 4});
  }

  /** First half of brel: b melts into the free block before it, or joins the free list. */
  method FreeOrAbsorb(m: Mem, b: int, h: int, ghost blk: Blocks, ghost pools: Pools, ghost fl: seq<int>)
    returns (m': Mem, x: int, ghost links: set<int>)
    requires Inv(m, blk, pools, h, fl) && b in blk && blk[b].kind.Used?
    ensures x in blk && (if x == b then !FreeBefore(blk, b) else blk[x].kind.Free? && Next(blk, x) == b)
    ensures Midway(m, m', blk, h, b, x, Next(blk, b), if x == b then fl + [b] else fl, links)
  {
    assert BackOk(m, blk, b);
    if Rd(m, b) != 0 {
      var size := Rd(m, b + 4);
      assert Rd(m, b - Rd(m, b) + 4) == Rd(m, b);  // line 714 of bget.c
      x := b - Rd(m, b);
      assert Next(blk, x) == b;
      links := {};
      m' := m[x + 4 := Rd(m, x + 4) - size];
      LinksFrame(m, m', blk, h, fl, {x + 4});
    } else {
      x := b;
      assert !FreeBefore(blk, b);
      m', links := FreeAlone(m, b, h, blk, fl);
    }
  }

  /** The block c after the one at x is free: it is dechained and swallowed. */
  method AbsorbFree(ghost m: Mem, m1: Mem, x: int, c: int, ghost b: int, ghost h: int, ghost blk: Blocks, ghost fl1: seq<int>,
                    ghost links1: set<int>)
    returns (m': Mem, ghost links: set<int>)
    requires Sized(blk) && Disjoint(blk) && HeadApart(blk, h) && b in blk && blk[b].kind.Used? && x in blk && x <= b
    requires c == Next(blk, b) && c in blk && blk[c].kind.Free? && Next(blk, c) in blk && c in fl1
    requires Rd(m, c + 4) == blk[c].size && Rd(m, Next(blk, c)) == blk[c].size
    requires Midway(m, m1, blk, h, b, x, c, fl1, links1)
    ensures Midway(m, m', blk, h, b, x, Next(blk, c), Without(fl1, c), links)
  {
    MidwayHeader(m, m1, blk, h, b, x, c, fl1, links1, c);
    MidwayHeader(m, m1, blk, h, b, x, c, fl1, links1, Next(blk, c));
    assert Rd(m1, c + Rd(m1, c + 4)) == Rd(m1, c + 4);  // line 742 of bget.c
    Unfold(m, m1, blk, h, b, x, c, fl1, links1);
    ghost var links2;
    m', links2 := Swallow(m1, x, c, b, h, blk, fl1);
    links := links1 + links2;
    SameThrough(m, m1, m', {x + 4} + links1, {x + 4} + links2, {x + 4} + links);
  }

  /** Second half of brel: the block at x, now ending where b did, swallows the free block after it,
      and the block that then follows records its size. */
  method AbsorbNext(ghost m: Mem, m1: Mem, ghost b: int, x: int, ghost h: int, ghost blk: Blocks, ghost fl: seq<int>,
                    ghost links1: set<int>)
    returns (m': Mem, ghost y: int, ghost links: set<int>)
    requires Sized(blk) && Closed(blk) && Disjoint(blk) && Coalesced(blk) && Tagged(m, blk) && HeadApart(blk, h)
    requires b in blk && blk[b].kind.Used? && forall z :: z in fl <==> z in blk && blk[z].kind.Free?
    requires x in blk && (if x == b then !FreeBefore(blk, b) else blk[x].kind.Free? && Next(blk, x) == b)
    requires Midway(m, m1, blk, h, b, x, Next(blk, b), if x == b then fl + [b] else fl, links1)
    ensures Span(blk, b, x, y)
    ensures SameExcept(m, m', {x + 4, y} + links) && Rd(m', x + 4) == y - x && Rd(m', y) == y - x
    ensures forall w :: w in links ==> LinkWord(blk, h, b, w)
    ensures Ring(m', QLINKS, h, ReleasedList(blk, fl, b, x))
  {
    ghost var c, fl1 := Next(blk, b), if x == b then fl + [b] else fl;
    ListAfter(blk, fl, b, x);
    y := SpanEnd(m, blk, b, x);
    MidwayHeader(m, m1, blk, h, b, x, c, fl1, links1, c);
    var bn := x + Rd(m1, x + 4);
    if Rd(m1, bn + 4) > 0 {
      m', links := AbsorbFree(m, m1, x, bn, b, h, blk, fl1, links1);
      m' := Record(m, m', x, y, b, h, blk, Without(fl1, c), links);
    } else {
      links := links1;
      m' := Record(m, m1, x, y, b, h, blk, fl1, links);
    }
  }

  /** Where the released block ends, and what follows it. */
  lemma SpanEnd(m: Mem, blk: Blocks, b: int, x: int) returns (y: int)
    requires Sized(blk) && Closed(blk) && Coalesced(blk) && Tagged(m, blk) && b in blk && blk[b].kind.Used?
    requires x in blk && (if x == b then !FreeBefore(blk, b) else blk[x].kind.Free? && Next(blk, x) == b)
    ensures Span(blk, b, x, y) && x <= b && Next(blk, b) in blk && (Rd(m, Next(blk, b) + 4) > 0 <==> blk[Next(blk, b)].kind.Free?)
    ensures y == (if blk[Next(blk, b)].kind.Free? then Next(blk, Next(blk, b)) else Next(blk, b))
    ensures y in blk && x < y && !blk[y].kind.Free? && Rd(m, y + 4) == Tag(blk[y])
  {
    var c := Next(blk, b);
    y := if blk[c].kind.Free? then Next(blk, c) else c;
    SpanEnds(blk, b, x, y);
  }

  lemma ListAfter(blk: Blocks, fl: seq<int>, b: int, x: int)
    requires Sized(blk) && Closed(blk) && b in blk && blk[b].kind.Used? && forall z :: z in fl <==> z in blk && blk[z].kind.Free?
    ensures var fl1, c := if x == b then fl + [b] else fl, Next(blk, b);
            && (blk[c].kind.Free? ==> c in fl1 && ReleasedList(blk, fl, b, x) == Without(fl1, c))
            && (!blk[c].kind.Free? ==> ReleasedList(blk, fl, b, x) == fl1)
  {
    var fl1, c := if x == b then fl + [b] else fl, Next(blk, b);
    assert c in blk;
    if !blk[c].kind.Free? { WithoutAbsent(fl1, 0); }
  }

  /** The block after the one at x, found by its size, records that size. */
  method Record(ghost m: Mem, m2: Mem, x: int, ghost y: int, ghost b: int, ghost h: int, ghost blk: Blocks,
                ghost fl: seq<int>, ghost links: set<int>)
    returns (m': Mem)
    requires Sized(blk) && Disjoint(blk) && HeadApart(blk, h) && b in blk && blk[b].kind.Used?
    requires x in blk && y in blk && x < y && !blk[y].kind.Free? && Rd(m, y + 4) == Tag(blk[y])
    requires Midway(m, m2, blk, h, b, x, y, fl, links)
    ensures SameExcept(m, m', {x + 4, y} + links) && Rd(m', x + 4) == Rd(m', y) == y - x
    ensures (forall w :: w in links ==> LinkWord(blk, h, b, w)) && Ring(m', QLINKS, h, fl)
  {
    MidwayHeader(m, m2, blk, h, b, x, y, fl, links, y);
    var bn := x + Rd(m2, x + 4);
    assert Rd(m2, bn + 4) < 0;  // line 758 of bget.c
    m' := m2[bn := Rd(m2, x + 4)];
    Unfold(m, m2, blk, h, b, x, y, fl, links);
    SameThrough(m, m2, m', {x + 4} + links, {y}, {x + 4, y} + links);
    LinksFrame(m2, m', blk, h, fl, {y});
  }

  lemma SameHeader(m: Mem, m1: Mem, blk: Blocks, h: int, b: int, x: int, links: set<int>, a: int)
    requires Sized(blk) && Disjoint(blk) && HeadApart(blk, h) && b in blk && blk[b].kind.Used? && a in blk && x in blk && a != x
    requires SameExcept(m, m1, {x + 4} + links) && forall w :: w in links ==> LinkWord(blk, h, b, w)
    ensures Rd(m1, a) == Rd(m, a) && Rd(m1, a + 4) == Rd(m, a + 4)
  {
    HeaderNotLink(blk, h, b, a);
  }

  /** brel: release the live block b. */
  method Release(m: Mem, b: int, h: int, ghost blk: Blocks, ghost pools: Pools, ghost fl: seq<int>)
    returns (m': Mem, ghost x: int, ghost y: int)
    requires Inv(m, blk, pools, h, fl) && b in blk && blk[b].kind.Used?
    ensures Span(blk, b, x, y) && Inv(m', Merge(blk, x, y), pools, h, ReleasedList(blk, fl, b, x))
    ensures SameData(m, m', blk, b)
  {
    assert Rd(m, b + 4) < 0;                  // line 694 of bget.c
    ghost var c := Next(blk, b);
    assert BackOk(m, blk, c);
    assert Rd(m, b - Rd(m, b + 4)) == 0;      // line 699
    var a, m1;
    ghost var links;
    m1, a, links := FreeOrAbsorb(m, b, h, blk, pools, fl);
    m', y, links := AbsorbNext(m, m1, b, a, h, blk, fl, links);
    x := a;
    ReleaseKeeps(m, m', blk, pools, h, b, x, y, links);
    ReleasedListed(m', blk, pools, h, fl, b, x, y);
    TiledMerge(blk, pools, b, x, y);
    SpanFacts(blk, pools, b, x, y);
  }

  /** A region apart from all pools is apart from all blocks. */
  lemma RegionApart(blk: Blocks, pools: Pools, lo: int, hi: int, a: int)
    requires Tiled(blk, pools) && a in blk && lo < hi
    requires forall s :: s in pools ==> s + pools[s] + HDR <= lo || hi <= s
    ensures a + blk[a].size <= lo || hi <= a
  {
    if blk[a].kind.End? {
      assert Closes(pools, a);
    } else {
      OwnPool(blk, pools, a);
      var t :| t in pools && t <= a < t + pools[t];
      assert t + pools[t] in blk;
    }
  }

  ghost function WithPool(blk: Blocks, b: int, n: int): Blocks {
    blk[b := Block(n, Free)][b + n := Block(HDR, End)]
  }

  lemma PoolShape(blk: Blocks, b: int, n: int)
    requires Sized(blk) && Closed(blk) && Disjoint(blk) && Coalesced(blk) && 0 < b && n >= 16 && n % 4 == 0
    requires forall a :: a in blk ==> a + blk[a].size <= b || b + n + HDR <= a
    ensures var blk' := WithPool(blk, b, n); Sized(blk') && Closed(blk') && Disjoint(blk') && Coalesced(blk')
  {
    var blk' := WithPool(blk, b, n);
    forall a | a in blk' ensures Whole(blk'[a]) { assert a in blk ==> Whole(blk[a]); }
    assert Next(blk', b) == b + n;
    forall a {:trigger Next(blk', a)} | a in blk' && !blk'[a].kind.End?
      ensures Next(blk', a) in blk' && (blk'[a].kind.Free? ==> !blk'[Next(blk', a)].kind.Free?)
    {
      if a != b { assert Next(blk', a) == Next(blk, a); }
    }
  }

  lemma PoolConnected(blk: Blocks, pools: Pools, b: int, n: int)
    requires Sized(blk) && Connected(blk, pools) && n >= 16
    requires forall a :: a in blk ==> a + blk[a].size <= b || b + n + HDR <= a
    ensures Connected(WithPool(blk, b, n), pools[b := n])
  {
    var blk', pools' := WithPool(blk, b, n), pools[b := n];
    assert Next(blk', b) == b + n;
    forall a {:trigger Follows(blk', a)} | a in blk' && a !in pools' ensures Follows(blk', a) {
      if a != b + n {
        assert Follows(blk, a);
        var p :| p in blk && !blk[p].kind.End? && Next(blk, p) == a;
        assert Next(blk', p) == a;
      }
    }
  }

  lemma PoolAnchored(blk: Blocks, pools: Pools, b: int, n: int)
    requires Sized(blk) && Anchored(blk, pools) && n >= 16
    requires forall a :: a in blk ==> a + blk[a].size <= b || b + n + HDR <= a
    ensures Anchored(WithPool(blk, b, n), pools[b := n])
  {
    var blk', pools' := WithPool(blk, b, n), pools[b := n];
    forall a {:trigger Closes(pools', a)} | a in blk' && blk'[a].kind.End? ensures Closes(pools', a) {
      if a == b + n {
        assert b in pools' && b + pools'[b] == a;
      } else {
        assert Closes(pools, a);
        var s :| s in pools && s + pools[s] == a;
        assert s in pools' && s + pools'[s] == a;
      }
    }
  }

  lemma TiledPool(blk: Blocks, pools: Pools, b: int, n: int)
    requires Tiled(blk, pools) && 0 < b && n >= 16 && n % 4 == 0
    requires forall s :: s in pools ==> s + pools[s] + HDR <= b || b + n + HDR <= s
    ensures Tiled(WithPool(blk, b, n), pools[b := n]) && Live(WithPool(blk, b, n)) == Live(blk)
    ensures forall a :: a in blk ==> a + blk[a].size <= b || b + n + HDR <= a
  {
    forall a | a in blk ensures a + blk[a].size <= b || b + n + HDR <= a { RegionApart(blk, pools, b, b + n + HDR, a); }
    PoolShape(blk, b, n);
    PoolConnected(blk, pools, b, n);
    PoolAnchored(blk, pools, b, n);
    PoolLive(blk, b, n);
    PoolsGrow(pools, b, n);
  }

  lemma PoolLive(blk: Blocks, b: int, n: int)
    requires b !in blk && b + n !in blk
    ensures Live(WithPool(blk, b, n)) == Live(blk)
  {
    assert forall a :: a in Live(WithPool(blk, b, n)) <==> a in Live(blk);
  }

  lemma PoolsGrow(pools: Pools, b: int, n: int)
    requires PoolsOk(pools) && n >= 16
    requires forall s :: s in pools ==> s + pools[s] + HDR <= b || b + n + HDR <= s
    ensures PoolsOk(pools[b := n])
  {
  }

  lemma PoolTags(m: Mem, m': Mem, blk: Blocks, b: int, n: int)
    requires Tagged(m, blk) && Sized(blk) && Closed(blk) && n >= 16
    requires forall a :: a in blk ==> a + blk[a].size <= b || b + n + HDR <= a
    requires forall a :: a in blk ==> Rd(m', a) == Rd(m, a) && Rd(m', a + 4) == Rd(m, a + 4)
    requires Rd(m', b) == 0 && Rd(m', b + 4) == n && Rd(m', b + n) == n && Rd(m', b + n + 4) == ESENT
    ensures Tagged(m', WithPool(blk, b, n))
  {
    var blk' := WithPool(blk, b, n);
    forall a {:trigger BackOk(m', blk', a)} | a in blk' ensures BackOk(m', blk', a) {
      if a in blk { assert BackOk(m, blk, a); }
    }
    forall a {:trigger Next(blk', a)} | a in blk' && blk'[a].kind.Free? ensures Rd(m', Next(blk', a)) == blk'[a].size {
      if a != b { assert Next(blk', a) == Next(blk, a) && Next(blk, a) in blk; }
    }
  }

  /** bpool on a region of n bytes and a closing block, chained behind the last free block. */
  method AddPool(m: Mem, b: int, n: int, h: int, ghost blk: Blocks, ghost pools: Pools, ghost fl: seq<int>)
    returns (m': Mem)
    requires Inv(m, blk, pools, h, fl) && 0 < b && 16 <= n && n % 4 == 0
    requires b + n + HDR <= h || h + 16 <= b
    requires forall s :: s in pools ==> s + pools[s] + HDR <= b || b + n + HDR <= s
    ensures Inv(m', WithPool(blk, b, n), pools[b := n], h, fl + [b])
    ensures Live(WithPool(blk, b, n)) == Live(blk) && SameData(m, m', blk, 0)
  {
    TiledPool(blk, pools, b, n);
    ListApart(m, blk, h, fl, b, n);
    m' := PoolWrites(m, b, n, h, fl);
    PoolKeeps(m, m', blk, pools, h, fl, b, n, Rd(m, h + 12));
  }

  lemma ListApart(m: Mem, blk: Blocks, h: int, fl: seq<int>, b: int, n: int)
    requires Ring(m, QLINKS, h, fl) && Sized(blk) && forall x :: x in fl ==> x in blk && blk[x].kind.Free?
    requires forall a :: a in blk ==> a + blk[a].size <= b || b + n + HDR <= a
    ensures LinkHolder(blk, h, Rd(m, h + 12)) && forall x :: x in fl ==> x + 16 <= b || b + n + HDR <= x
  {
    assert Link(m, QLINKS, h, fl, |fl|);
  }

  /** The writes of bpool, on memory alone. */
  method PoolWrites(m: Mem, b: int, n: int, h: int, ghost fl: seq<int>) returns (m': Mem)
    requires Ring(m, QLINKS, h, fl) && n >= 16
    requires b + n + HDR <= h || h + 16 <= b
    requires forall x :: x in fl ==> x + 16 <= b || b + n + HDR <= x
    ensures SameExcept(m, m', PoolTouched(h, b, n, Rd(m, h + 12)))
    ensures Rd(m', b) == 0 && Rd(m', b + 4) == n && Rd(m', b + n) == n && Rd(m', b + n + 4) == ESENT
    ensures Ring(m', QLINKS, h, fl + [b])
  {
    var m1 := m[b := 0];
    RingFrame(m, m1, QLINKS, h, fl);
    var m2 := LinkTail(m1, h, b, fl);
    ghost var p := Rd(m, h + 12);
    assert Rd(m1, h + 12) == p && Rd(m2, b) == 0;
    SameThrough(m, m1, m2, {b}, {p + 8, h + 12, b + 8, b + 12}, {b, p + 8, h + 12, b + 8, b + 12});
    m' := PoolHeader(m2, b, n, h, fl);
    SameThrough(m, m2, m', {b, p + 8, h + 12, b + 8, b + 12}, {b + 4, b + n, b + n + 4}, PoolTouched(h, b, n, p));
  }

  method PoolHeader(m: Mem, b: int, n: int, ghost h: int, ghost fl: seq<int>) returns (m': Mem)
    requires Ring(m, QLINKS, h, fl + [b]) && n >= 16 && (b + n + HDR <= h || h + 16 <= b)
    requires forall x :: x in fl ==> x + 16 <= b || b + n + HDR <= x
    ensures SameExcept(m, m', {b + 4, b + n, b + n + 4}) && Ring(m', QLINKS, h, fl + [b])
    ensures Rd(m', b + 4) == n && Rd(m', b + n) == n && Rd(m', b + n + 4) == ESENT
  {
    m' := m[b + 4 := n];
    m' := m'[b + n := n];
    m' := m'[b + n + 4 := ESENT];
    RingFrame(m, m', QLINKS, h, fl + [b]);
  }

  /** The words bpool writes: two headers, and the links that chain b behind p. */
  ghost function PoolTouched(h: int, b: int, n: int, p: int): set<int> {
    {b, b + 4, b + 8, b + 12, b + n, b + n + 4, h + 12, p + 8}
  }

  lemma PoolHeaders(m: Mem, m': Mem, blk: Blocks, h: int, b: int, n: int, p: int)
    requires Sized(blk) && Disjoint(blk) && HeadApart(blk, h) && LinkHolder(blk, h, p) && n >= 16
    requires forall a :: a in blk ==> a + blk[a].size <= b || b + n + HDR <= a
    requires SameExcept(m, m', PoolTouched(h, b, n, p))
    ensures forall a :: a in blk ==> Rd(m', a) == Rd(m, a) && Rd(m', a + 4) == Rd(m, a + 4)
    ensures SameData(m, m', blk, 0)
  {
    forall a | a in blk ensures Rd(m', a) == Rd(m, a) && Rd(m', a + 4) == Rd(m, a + 4) {
      PoolWords(blk, h, b, n, p, a, a);
      PoolWords(blk, h, b, n, p, a, a + 4);
    }
    forall u, w | DataWord(blk, u, w) ensures Rd(m', w) == Rd(m, w) { PoolWords(blk, h, b, n, p, u, w); }
  }

  lemma PoolKeeps(m: Mem, m': Mem, blk: Blocks, pools: Pools, h: int, fl: seq<int>, b: int, n: int, p: int)
    requires Inv(m, blk, pools, h, fl) && Tiled(WithPool(blk, b, n), pools[b := n]) && n >= 16
    requires forall a :: a in blk ==> a + blk[a].size <= b || b + n + HDR <= a
    requires b + n + HDR <= h || h + 16 <= b
    requires SameExcept(m, m', PoolTouched(h, b, n, p)) && LinkHolder(blk, h, p)
    requires Rd(m', b) == 0 && Rd(m', b + 4) == n && Rd(m', b + n) == n && Rd(m', b + n + 4) == ESENT
    requires Ring(m', QLINKS, h, fl + [b])
    ensures Inv(m', WithPool(blk, b, n), pools[b := n], h, fl + [b])
    ensures SameData(m, m', blk, 0)
  {
    PoolHeaders(m, m', blk, h, b, n, p);
    PoolTags(m, m', blk, b, n);
  }

  /** Adding a pool at b leaves the header words and the buffers of all other blocks alone. */
  lemma PoolWords(blk: Blocks, h: int, b: int, n: int, p: int, a: int, w: int)
    requires Sized(blk) && Disjoint(blk) && HeadApart(blk, h) && LinkHolder(blk, h, p) && n >= 16
    requires a in blk && (a + blk[a].size <= b || b + n + HDR <= a)
    requires w == a || w == a + 4 || DataWord(blk, a, w)
    ensures w !in PoolTouched(h, b, n, p)
  {
    assert a <= w < a + blk[a].size;
    assert w != p + 8;
  }

  /** The block best fit picks is carved for n bytes. If more than a header and the room for two links remains, the
      caller gets its tail and the rest stays free in its place on the list; otherwise the caller gets all of it, and it
      leaves the list. */
  ghost predicate Carved(blk: Blocks, fl: seq<int>, n: int, k: nat, blk': Blocks, fl': seq<int>, buf: int) {
    && BestFit(blk, fl, n, k) && fl[k] in blk && blk[fl[k]].kind.Free?
    && var b := fl[k];
       var rem := blk[b].size - n;
       && (rem > 16 ==> buf == b + rem + 8 && blk' == blk[b := Block(rem, Free)][b + rem := Block(n, Used)] && fl' == fl)
       && (rem <= 16 ==> buf == b + 8 && blk' == blk[b := Block(blk[b].size, Used)] && fl' == fl[..k] + fl[k + 1..])
  }

  lemma TakenOut(m: Mem, h: int, fl: seq<int>, k: nat)
    requires Ring(m, QLINKS, h, fl) && k < |fl|
    ensures Without(fl, fl[k]) == fl[..k] + fl[k + 1..]
  {
    forall i | 0 <= i < |fl| && i != k ensures fl[i] != fl[k] { Distinct(h, fl, i + 1, k + 1); }
    WithoutAt(fl, k);
  }

  /** Block u became live and holds the request; the other live blocks are as before. */
  ghost predicate Granted(blk: Blocks, blk': Blocks, u: int, request: int) {
    u !in Live(blk) && u in Live(blk') && Live(blk') == Live(blk)[u := Live(blk')[u]] && Live(blk')[u] >= request + HDR
  }

  /** The scan of bget: address of the best-fitting free block, or the list head if none fits. */
  method FindBest(m: Mem, size: int, h: int, ghost blk: Blocks, ghost fl: seq<int>) returns (best: int, ghost k: nat)
    requires Ring(m, QLINKS, h, fl) && forall x :: x in fl ==> x in blk && Rd(m, x + 4) == blk[x].size && x != h
    ensures best == h ==> forall x :: x in fl ==> SizeOf(blk, x) < size
    ensures best != h ==> k < |fl| && best == fl[k] && BestFit(blk, fl, size, k)
  {
    assert Link(m, QLINKS, h, fl, 0);
    var b := Rd(m, h + 8);
    best := h;
    k := 0;
    ghost var i: nat := 0;
    while b != h
      invariant i <= |fl| && b == At(h, fl, i + 1)
      invariant best == h ==> forall j :: 0 <= j < i ==> SizeOf(blk, fl[j]) < size
      invariant best != h ==> k < i && best == fl[k] && size <= SizeOf(blk, best)
      invariant best != h ==> forall j :: 0 <= j < k && size <= SizeOf(blk, fl[j]) ==> SizeOf(blk, best) < SizeOf(blk, fl[j])
      invariant best != h ==> forall j :: k < j < i && size <= SizeOf(blk, fl[j]) ==> SizeOf(blk, best) <= SizeOf(blk, fl[j])
      decreases |fl| - i
    {
      assert b == fl[i] && b in fl;
      assert best != h ==> best in fl;
      if Rd(m, b + 4) >= size {
        if best == h || Rd(m, b + 4) < Rd(m, best + 4) {
          best, k := b, i;
        }
      }
      assert Link(m, QLINKS, h, fl, i + 1);
      b := Rd(m, b + 8);
      i := i + 1;
    }
  }

  /** The invariant, folded. */
  ghost predicate Sound(m: Mem, blk: Blocks, pools: Pools, h: int, fl: seq<int>) {
    forall t :: Token(t) ==> Inv(m, blk, pools, h, fl)
  }

  lemma Open(m: Mem, blk: Blocks, pools: Pools, h: int, fl: seq<int>)
    requires Sound(m, blk, pools, h, fl)
    ensures Inv(m, blk, pools, h, fl)
  {
    assert Token(0);
  }

  ghost predicate Fits(blk: Blocks, n: int) {
    exists a :: a in blk && blk[a].kind.Free? && n <= blk[a].size
  }

  lemma NoneFits(blk: Blocks, fl: seq<int>, n: int)
    requires forall a :: a in blk && blk[a].kind.Free? ==> a in fl
    requires forall x :: x in fl ==> SizeOf(blk, x) < n
    ensures !Fits(blk, n)
  {
  }

  /** Carve the block best fit found. */
  method CarveBlock(m: Mem, b: int, size: int, h: int, ghost blk: Blocks, ghost pools: Pools, ghost fl: seq<int>, ghost k: nat)
    returns (m': Mem, buf: int, ghost fl': seq<int>)
    requires Inv(m, blk, pools, h, fl) && BestFit(blk, fl, size, k) && b == fl[k] && Takeable(blk, b, size)
    ensures Sound(m', Take(blk, b, size), pools, h, fl') && SameData(m, m', blk, 0) && buf == Taken(blk, b, size) + HDR
    ensures Carved(blk, fl, size, k, Take(blk, b, size), fl', buf)
  {
    fl' := fl;
    if Rd(m, b + 4) - size > MIN_DATA + HDR {
      m', buf := Split(m, b, size, blk, pools, h, fl);
    } else {
      m', buf := TakeWhole(m, b, size, blk, pools, h, fl);
      TakenOut(m, h, fl, k);
      fl' := Without(fl, b);
    }
  }

  /** The best-fitting block for a request, or the list head exactly when no free block fits. */
  method SearchBlock(m: Mem, size: int, h: int, ghost blk: Blocks, ghost pools: Pools, ghost fl: seq<int>) returns (b: int, ghost k: nat)
    requires Inv(m, blk, pools, h, fl) && 16 <= size && size % 4 == 0
    ensures b == h <==> !Fits(blk, size)
    ensures b != h ==> BestFit(blk, fl, size, k) && b == fl[k] && Takeable(blk, b, size)
  {
    b, k := FindBest(m, size, h, blk, fl);
    if b == h {
      NoneFits(blk, fl, size);
    } else {
      assert b in fl;
    }
  }

  /** bget on values. */
  method GetBlock(m: Mem, request: int, h: int, ghost blk: Blocks, ghost pools: Pools, ghost fl: seq<int>)
    returns (m': Mem, buf: int, ghost k: nat, ghost blk': Blocks, ghost fl': seq<int>)
    requires Sound(m, blk, pools, h, fl) && request > 0
    ensures Sound(m', blk', pools, h, fl') && SameData(m, m', blk, 0)
    ensures buf == 0 <==> !Fits(blk, Need(request))
    ensures buf == 0 ==> m' == m && blk' == blk && fl' == fl
    ensures buf != 0 ==> Carved(blk, fl, Need(request), k, blk', fl', buf) && Granted(blk, blk', buf - HDR, request)
  {
    Open(m, blk, pools, h, fl);
    var size := Need(request);
    var b;
    b, k := SearchBlock(m, size, h, blk, pools, fl);
    if b == h {
      return m, 0, 0, blk, fl;
    }
    // the scan left a fitting block, so the second loop of the source returns in its first round
    blk' := Take(blk, b, size);
    m', buf, fl' := CarveBlock(m, b, size, h, blk, pools, fl, k);
    TakeGrants(blk, pools, b, size, request);
  }

  lemma TakeGrants(blk: Blocks, pools: Pools, b: int, n: int, request: int)
    requires Tiled(blk, pools) && Takeable(blk, b, n) && n >= request + HDR
    ensures Granted(blk, Take(blk, b, n), Taken(blk, b, n), request) && Taken(blk, b, n) > 0
  {
    TiledTake(blk, pools, b, n);
  }

  /** Writes confined to one live buffer leave the heap intact. */
  lemma BufferWritesHarmless(m: Mem, m': Mem, blk: Blocks, pools: Pools, h: int, fl: seq<int>, u: int)
    requires Inv(m, blk, pools, h, fl) && u in blk && blk[u].kind.Used?
    requires forall w :: !DataWord(blk, u, w) ==> Rd(m', w) == Rd(m, w)
    ensures Inv(m', blk, pools, h, fl) && SameData(m, m', blk, u)
  {
    forall a | a in blk ensures !DataWord(blk, u, a) && !DataWord(blk, u, a + 4) {}
    assert Tagged(m', blk) by {
      forall a {:trigger BackOk(m', blk, a)} | a in blk ensures BackOk(m', blk, a) { assert BackOk(m, blk, a); }
    }
    forall x | x == h || x in fl ensures !DataWord(blk, u, x + 8) && !DataWord(blk, u, x + 12) {}
    RingFrame(m, m', QLINKS, h, fl);
    forall v, w | DataWord(blk, v, w) && v != u ensures !DataWord(blk, u, w) {}
  }

  /** As Granted, and block b is no longer live. */
  ghost predicate Regranted(blk: Blocks, blk': Blocks, b: int, u: int, request: int) {
    u !in Live(blk) && u in Live(blk') && Live(blk') == Live(blk)[u := Live(blk')[u]] - {b} && Live(blk')[u] >= request + HDR
  }

  /** What the folded invariant says about one live block. */
  lemma LiveBlock(m: Mem, blk: Blocks, pools: Pools, h: int, fl: seq<int>, u: int)
    requires Sound(m, blk, pools, h, fl) && u in Live(blk)
    ensures u > 0 && Live(blk)[u] >= 16 && Live(blk)[u] % 4 == 0 && Rd(m, u + 4) == -Live(blk)[u]
  {
    Open(m, blk, pools, h, fl);
    assert Whole(blk[u]);
  }

  lemma CopyInside(m: Mem, m': Mem, blk: Blocks, pools: Pools, h: int, fl: seq<int>, u: int, words: nat)
    requires Sound(m, blk, pools, h, fl) && u in Live(blk) && HDR + 4 * words <= Live(blk)[u]
    requires forall w :: !CopyWord(u + HDR, words, w) ==> Rd(m', w) == Rd(m, w)
    ensures Sound(m', blk, pools, h, fl)
  {
    Open(m, blk, pools, h, fl);
    BufferWritesHarmless(m, m', blk, pools, h, fl, u);
  }

  lemma ApartLive(m: Mem, blk: Blocks, pools: Pools, h: int, fl: seq<int>, u: int, v: int)
    requires Sound(m, blk, pools, h, fl) && u in Live(blk) && v in Live(blk) && u != v
    ensures u + Live(blk)[u] <= v || v + Live(blk)[v] <= u
  {
    Open(m, blk, pools, h, fl);
    LiveBuffersApart(blk, pools, u, v);
  }

  /** Two heaps with the same pools and live buffers have the same blocks and the same free blocks. */
  lemma SameHeaps(m1: Mem, blk1: Blocks, fl1: seq<int>, m2: Mem, blk2: Blocks, fl2: seq<int>, pools: Pools, h: int)
    requires Sound(m1, blk1, pools, h, fl1) && Sound(m2, blk2, pools, h, fl2) && Live(blk1) == Live(blk2)
    ensures blk1 == blk2 && forall x :: x in fl1 <==> x in fl2
  {
    Open(m1, blk1, pools, h, fl1);
    Open(m2, blk2, pools, h, fl2);
    TilingUnique(blk1, blk2, pools);
  }

  lemma AllReleased(m: Mem, blk: Blocks, pools: Pools, h: int, fl: seq<int>)
    requires Sound(m, blk, pools, h, fl) && forall u :: u !in Live(blk)
    ensures Pristine(blk, pools)
  {
    Open(m, blk, pools, h, fl);
    NothingLive(blk, pools);
  }

  /** Data kept by an allocation and then by the release of the block it granted is kept by both. */
  lemma SameDataTwice(m0: Mem, m1: Mem, m2: Mem, bs: Blocks, bs1: Blocks, u: int)
    requires SameData(m0, m1, bs, 0) && SameData(m1, m2, bs1, u) && u !in Live(bs) && 0 !in bs
    requires forall v :: v in Live(bs) ==> v in Live(bs1) && Live(bs1)[v] == Live(bs)[v]
    ensures SameData(m0, m2, bs, 0)
  {
    forall v, w | DataWord(bs, v, w) ensures Rd(m2, w) == Rd(m0, w) {
      assert v in Live(bs);
      assert DataWord(bs1, v, w);
    }
  }

  /** The i-th word of the buffer at base. */
  function Word(m: Mem, base: int, i: int): int {
    Rd(m, base + 4 * i)
  }

  /** One word on its way through bgetr: from m0 over bget to m1, copied to m2, and over brel to m3. */
  lemma KeptWord(m0: Mem, m1: Mem, m2: Mem, m3: Mem, bs: Blocks, bs1: Blocks, buf: int, nbuf: int, i: int)
    requires SameData(m0, m1, bs, 0) && Word(m2, nbuf, i) == Word(m1, buf, i) && SameData(m2, m3, bs1, buf - HDR)
    requires buf - HDR in Live(bs) && buf - HDR != 0 && 0 <= i && 4 * i + 4 <= Live(bs)[buf - HDR] - HDR
    requires nbuf - HDR in Live(bs1) && nbuf != buf && 4 * i + 4 <= Live(bs1)[nbuf - HDR] - HDR
    ensures Word(m3, nbuf, i) == Word(m0, buf, i)
  {
    assert DataWord(bs1, nbuf - HDR, nbuf + 4 * i) && DataWord(bs, buf - HDR, buf + 4 * i);
  }

  lemma TailIn(s: seq<int>, k: nat, x: int)
    requires k < |s| && forall i, j :: 0 <= i < j < |s| ==> s[i] != s[j]
    ensures x in s[k + 1..] <==> x in s[k..] && x != s[k]
  {
    assert s[k..] == [s[k]] + s[k + 1..];
  }

  /** w is the address of one of the n words from dst on. */
  ghost predicate CopyWord(dst: int, n: int, w: int) {
    dst <= w && w + 4 <= dst + 4 * n && (w - dst) % 4 == 0
  }

  /** memcpy of n words between areas that do not overlap. */
  method CopyWords(m: Mem, dst: int, src: int, n: nat) returns (m': Mem)
    requires dst + 4 * n <= src || src + 4 * n <= dst
    ensures forall i :: 0 <= i < n ==> Word(m', dst, i) == Word(m, src, i)
    ensures forall w :: !CopyWord(dst, n, w) ==> Rd(m', w) == Rd(m, w)
  {
    m' := m;
    for k := 0 to n
      invariant forall i :: 0 <= i < k ==> Word(m', dst, i) == Word(m, src, i)
      invariant forall w :: !CopyWord(dst, k, w) ==> Rd(m', w) == Rd(m, w)
    {
      m' := m'[dst + 4 * k := Rd(m', src + 4 * k)];
    }
  }

  /** Bytes of the single free block a region of len bytes becomes. */
  function PoolBytes(len: int): (n: int)
    ensures n % 4 == 0 && len - 4 < n + HDR <= len
  {
    len - len % 4 - HDR
  }

  class Heap {
    var mem: Mem
    const head: int            // &freelist
    ghost var blk: Blocks
    ghost var pools: Pools
    ghost var fl: seq<int>

    ghost predicate Valid()
      reads this
    {
      Sound(mem, blk, pools, head, fl)
    }

    /** The free list starts out empty and memory is otherwise arbitrary. */
    constructor (m: Mem, h: int)
      ensures Valid() && head == h && blk == map[] && pools == map[] && fl == []
      ensures SameExcept(m, mem, {h + 8, h + 12})
    {
      mem := m[h + 8 := h][h + 12 := h];
      head := h;
      blk, pools, fl := map[], map[], [];
      new;
      assert Link(mem, QLINKS, head, [], 0);
    }

    method Bget(request: int) returns (buf: int)
      requires Valid() && request > 0
      modifies this
      ensures Valid() && pools == old(pools)
      ensures buf == 0 <==> !Fits(old(blk), Need(request))
      ensures buf == 0 ==> mem == old(mem) && blk == old(blk) && fl == old(fl)
      ensures buf != 0 ==> exists k: nat :: Carved(old(blk), old(fl), Need(request), k, blk, fl, buf)
      ensures buf != 0 ==> Granted(old(blk), blk, buf - HDR, request)
      ensures SameData(old(mem), mem, old(blk), 0)
    {
      var m;
      ghost var k, bs, ls;
      m, buf, k, bs, ls := GetBlock(mem, request, head, blk, pools, fl);
      mem, blk, fl := m, bs, ls;
    }

    /** Release a live buffer. */
    method Brel(buf: int)
      requires Valid() && buf - HDR in Live(blk)
      modifies this
      ensures Valid() && pools == old(pools) && Live(blk) == Live(old(blk)) - {buf - HDR}
      ensures exists x, y :: Span(old(blk), buf - HDR, x, y) && blk == Merge(old(blk), x, y)
                             && fl == ReleasedList(old(blk), old(fl), buf - HDR, x)
                             && Relisted(old(blk), old(fl), buf - HDR, x, y, fl)
      ensures SameData(old(mem), mem, old(blk), buf - HDR)
    {
      var b := buf - HDR;
      ghost var bs, ls := blk, fl;
      LiveBlock(mem, bs, pools, head, ls, b);
      assert buf != 0;  // line 686 of bget.c
      var m;
      ghost var x, y;
      m, x, y := GiveBack(mem, b, head, bs, pools, ls);
      mem, blk, fl := m, Merge(bs, x, y), ReleasedList(bs, ls, b, x);
    }

    /** Add a region of memory to the heap as one free block and its closing block. */
    method Bpool(buf: int, len: int)
      requires Valid()
      requires 0 < buf && 24 <= len && PoolBytes(len) <= -(ESENT + 1)
      requires buf + PoolBytes(len) + HDR <= head || head + 16 <= buf
      requires forall s :: s in pools ==> s + pools[s] + HDR <= buf || buf + PoolBytes(len) + HDR <= s
      modifies this
      ensures Valid()
      ensures pools == old(pools)[buf := PoolBytes(len)] && fl == old(fl) + [buf]
      ensures blk == WithPool(old(blk), buf, PoolBytes(len))
      ensures Live(blk) == Live(old(blk)) && SameData(old(mem), mem, old(blk), 0)
    {
      var n := PoolBytes(len);
      assert n <= -(ESENT + 1);  // line 784 of bget.c
      ghost var bs, ps, ls := blk, pools, fl;
      Open(mem, bs, ps, head, ls);
      var m := AddPool(mem, buf, n, head, bs, ps, ls);
      mem, blk, pools, fl := m, WithPool(bs, buf, n), ps[buf := n], ls + [buf];
    }

    /** A client stores a word in its own buffer. */
    method Store(buf: int, off: int, v: int)
      requires Valid() && DataWord(blk, buf - HDR, buf + off)
      modifies this`mem
      ensures Valid() && mem == old(mem)[buf + off := v] && SameData(old(mem), mem, blk, buf - HDR)
    {
      var m := mem[buf + off := v];
      Open(mem, blk, pools, head, fl);
      BufferWritesHarmless(mem, m, blk, pools, head, fl, buf - HDR);
      mem := m;
    }

    /** What the remaining operations need to know of bget and brel: the effect on live buffers. */
    method Acquire(request: int) returns (buf: int)
      requires Valid() && request > 0
      modifies this
      ensures Valid() && pools == old(pools) && SameData(old(mem), mem, old(blk), 0)
      ensures buf == 0 ==> mem == old(mem) && blk == old(blk) && fl == old(fl)
      ensures buf != 0 ==> Granted(old(blk), blk, buf - HDR, request)
    {
      buf := Bget(request);
    }

    method Discard(buf: int)
      requires Valid() && buf - HDR in Live(blk)
      modifies this
      ensures Valid() && pools == old(pools) && SameData(old(mem), mem, old(blk), buf - HDR)
      ensures Live(blk) == Live(old(blk)) - {buf - HDR}
    {
      Brel(buf);
    }

    /** Copy the first words of one live buffer to another. */
    method CopyData(nbuf: int, buf: int, words: nat)
      requires Valid() && buf - HDR in Live(blk) && nbuf - HDR in Live(blk) && buf != nbuf
      requires HDR + 4 * words <= Live(blk)[buf - HDR] && HDR + 4 * words <= Live(blk)[nbuf - HDR]
      modifies this`mem
      ensures Valid() && forall i :: 0 <= i < words ==> Word(mem, nbuf, i) == old(Word(mem, buf, i))
    {
      ApartLive(mem, blk, pools, head, fl, buf - HDR, nbuf - HDR);
      var m := CopyWords(mem, nbuf, buf, words);
      CopyInside(mem, m, blk, pools, head, fl, nbuf - HDR, words);
      mem := m;
    }

    /** Reallocate: acquire a new buffer, copy what fits, release the old one. */
    method Bgetr(buf: int, size: int) returns (nbuf: int)
      requires Valid() && size > 0 && (buf == 0 || buf - HDR in Live(blk))
      modifies this
      ensures Valid() && pools == old(pools)
      ensures nbuf == 0 ==> mem == old(mem) && blk == old(blk)
      ensures nbuf != 0 ==> Regranted(old(blk), blk, buf - HDR, nbuf - HDR, size)
      ensures nbuf != 0 && buf != 0 ==>
        forall i :: 0 <= 4 * i < size && 4 * i < Live(old(blk))[buf - HDR] - HDR ==> Word(mem, nbuf, i) == old(Word(mem, buf, i))
    {
      ghost var m0, bs := mem, blk;
      nbuf := Acquire(size);
      if nbuf == 0 { return; }
      if buf == 0 {
        NoLiveBelow(mem, blk, pools, head, fl);
        return;
      }
      var b := buf - HDR;
      ghost var m1, bs1 := mem, blk;
      assert b in Live(bs1) && Live(bs1)[b] == Live(bs)[b];
      LiveBlock(mem, bs1, pools, head, fl, b);
      LiveBlock(mem, bs1, pools, head, fl, nbuf - HDR);
      var osize := -Rd(mem, b + 4) - HDR;
      assert osize > 0;  // line 671 of bget.c
      var bytes := if size < osize then size else osize;
      CopyData(nbuf, buf, (bytes + 3) / 4);
      ghost var m2 := mem;
      Discard(buf);
      forall i | 0 <= 4 * i < size && 4 * i < osize ensures Word(mem, nbuf, i) == Word(m0, buf, i) {
        assert 0 <= i < (bytes + 3) / 4;
        KeptWord(m0, m1, m2, mem, bs, bs1, buf, nbuf, i);
      }
    }

    /** Getting a buffer and releasing it at once restores every block and the set of free blocks. */
    method GetThenRelease(request: int) returns (buf: int)
      requires Valid() && request > 0
      modifies this
      ensures Valid() && blk == old(blk) && pools == old(pools) && forall x :: x in fl <==> x in old(fl)
      ensures SameData(old(mem), mem, blk, 0)
    {
      ghost var m0, bs, ls := mem, blk, fl;
      NoLiveBelow(mem, blk, pools, head, fl);
      buf := Acquire(request);
      if buf != 0 {
        ghost var m1, bs1 := mem, blk;
        Discard(buf);
        GrantedThenGone(bs, bs1, blk, buf - HDR, request);
        SameHeaps(m0, bs, ls, mem, blk, fl, pools, head);
        SameDataTwice(m0, m1, mem, bs, bs1, buf - HDR);
      }
    }

    /** Releasing all live buffers, in any order, gives every pool back as one free block. */
    method ReleaseAll(bufs: seq<int>)
      requires Valid()
      requires forall i, j :: 0 <= i < j < |bufs| ==> bufs[i] != bufs[j]
      requires forall u :: u in Live(blk) <==> u + HDR in bufs
      modifies this
      ensures Valid() && pools == old(pools) && Pristine(blk, pools)
    {
      for k := 0 to |bufs|
        invariant Valid() && pools == old(pools)
        invariant forall u :: u in Live(blk) <==> u + HDR in bufs[k..]
      {
        assert bufs[k] - HDR + HDR in bufs[k..];
        Discard(bufs[k]);
        forall x ensures x in bufs[k + 1..] <==> x in bufs[k..] && x != bufs[k] { TailIn(bufs, k, x); }
      }
      AllReleased(mem, blk, pools, head, fl);
    }
  }

  /** The free list after releasing b, which spans x to y: b comes last unless a free block ended at it, and the free block
      that started at its end, if any, is gone. */
  ghost predicate Relisted(blk: Blocks, fl: seq<int>, b: int, x: int, y: int, fl': seq<int>) {
    b in blk &&
    var ls, c := if x == b then fl + [b] else fl, b + blk[b].size;
    if y == c then fl' == ls else exists i :: 0 <= i < |ls| && ls[i] == c && fl' == ls[..i] + ls[i + 1..]
  }

  lemma RelistedAt(ls: seq<int>, c: int, i: nat)
    requires i < |ls| && ls[i] == c && forall k :: 0 <= k < |ls| && k != i ==> ls[k] != c
    ensures Without(ls, c) == ls[..i] + ls[i + 1..]
  {
    WithoutAt(ls, i);
  }

  /** What the folded invariant says about the free list. */
  lemma ListFacts(m: Mem, blk: Blocks, pools: Pools, h: int, fl: seq<int>)
    requires Sound(m, blk, pools, h, fl)
    ensures forall i, j :: 0 <= i < |fl| && 0 <= j < |fl| && i != j ==> fl[i] != fl[j]
    ensures forall z :: z in fl <==> z in blk && blk[z].kind.Free?
    ensures 0 !in blk
  {
    NoLiveBelow(m, blk, pools, h, fl);
    Open(m, blk, pools, h, fl);
    forall i, j | 0 <= i < |fl| && 0 <= j < |fl| && i != j ensures fl[i] != fl[j] { Distinct(h, fl, i + 1, j + 1); }
  }

  lemma ReleasedOrder(blk: Blocks, fl: seq<int>, b: int, x: int, y: int)
    requires Span(blk, b, x, y) && (forall z :: z in fl <==> z in blk && blk[z].kind.Free?) && 0 !in blk && blk[Next(blk, b)].size > 0
    requires forall i, j :: 0 <= i < |fl| && 0 <= j < |fl| && i != j ==> fl[i] != fl[j]
    ensures Relisted(blk, fl, b, x, y, ReleasedList(blk, fl, b, x))
  {
    var ls, c := if x == b then fl + [b] else fl, Next(blk, b);
    if c in fl {
      var i :| 0 <= i < |fl| && fl[i] == c;
      RelistedAt(ls, c, i);
    } else {
      WithoutAbsent(ls, 0);
    }
  }

  lemma ReleasedInOrder(m: Mem, blk: Blocks, pools: Pools, h: int, fl: seq<int>, b: int, x: int, y: int)
    requires Sound(m, blk, pools, h, fl) && Span(blk, b, x, y)
    ensures Relisted(blk, fl, b, x, y, ReleasedList(blk, fl, b, x))
  {
    ListFacts(m, blk, pools, h, fl);
    SizePositive(m, blk, pools, h, fl, Next(blk, b));
    ReleasedOrder(blk, fl, b, x, y);
  }

  lemma SizePositive(m: Mem, blk: Blocks, pools: Pools, h: int, fl: seq<int>, a: int)
    requires Sound(m, blk, pools, h, fl) && a in blk
    ensures blk[a].size > 0
  {
    Open(m, blk, pools, h, fl);
  }

  /** brel on the folded invariant. */
  method GiveBack(m: Mem, b: int, h: int, ghost blk: Blocks, ghost pools: Pools, ghost fl: seq<int>)
    returns (m': Mem, ghost x: int, ghost y: int)
    requires Sound(m, blk, pools, h, fl) && b in Live(blk)
    ensures Span(blk, b, x, y) && Sound(m', Merge(blk, x, y), pools, h, ReleasedList(blk, fl, b, x))
    ensures SameData(m, m', blk, b) && Live(Merge(blk, x, y)) == Live(blk) - {b}
    ensures Relisted(blk, fl, b, x, y, ReleasedList(blk, fl, b, x))
  {
    Open(m, blk, pools, h, fl);
    m', x, y := Release(m, b, h, blk, pools, fl);
    ReleasedInOrder(m, blk, pools, h, fl, b, x, y);
    TiledMerge(blk, pools, b, x, y);
  }

  /** No block starts at or below address 0, so address 0 is never a buffer. */
  lemma NoLiveBelow(m: Mem, blk: Blocks, pools: Pools, h: int, fl: seq<int>)
    requires Sound(m, blk, pools, h, fl)
    ensures forall u :: u in blk ==> u > 0
  {
    Open(m, blk, pools, h, fl);
  }

  lemma GrantedThenGone(bs: Blocks, bs1: Blocks, bs2: Blocks, u: int, request: int)
    requires Granted(bs, bs1, u, request) && Live(bs2) == Live(bs1) - {u}
    ensures Live(bs2) == Live(bs) && forall v :: v in Live(bs) ==> v in Live(bs1) && Live(bs1)[v] == Live(bs)[v]
  {
  }
}
