/** The buddy page allocator (Kernel/mm.c): blocks, free lists, page marks and counts.
    Pages are numbered relative to buddy_map_base, so a number may be negative. */
module BuddySpec {
  import opened Arith
  import opened Bits
  import opened Words
  import opened Rings
  import opened Seqs
  import opened Lists

  const TOP := 10    // BUDDY_CHUNK_NUM - 1

  /** Free: on a list. Raw: off the lists, page counts still zero. InUse: handed out. */
  datatype Status = Free | Raw | InUse

  datatype Block = Block(order: int, status: Status)

  /** Keyed by the first page of each block. */
  type Blocks = map<int, Block>

  datatype Page = Page(buddy: bool, resvd: bool, count: int, order: int)

  type Pages = map<int, Page>

  function Pg(pages: Pages, i: int): Page {
    if i in pages then pages[i] else Page(false, false, 0, TOP)
  }

  /** Address of the list node inside page i, and of the list head of order k. */
  function Node(i: int): int { 16 * i }

  function Head(k: int): int { 16 * k + 8 }

  /** page_idx ^ (1 << order). */
  function Flip(i: int, k: int): int {
    Xor(i, Pow2(k))
  }

  function Last(blk: Blocks, b: int): int
    requires b in blk
  {
    b + Pow2(blk[b].order)
  }

  /** The blocks tile the pages from lo up to the frontier hi, beyond which nothing was ever used. */
  ghost predicate Tiles(blk: Blocks, lo: int, hi: int) {
    && lo <= hi && (lo == hi || lo in blk)
    && (forall b :: b in blk ==> lo <= b && 0 <= blk[b].order <= TOP)
    && Chained(blk, hi) && Disjoint(blk)
  }

  ghost predicate Chained(blk: Blocks, hi: int) {
    forall b {:trigger Last(blk, b)} :: b in blk ==> Last(blk, b) == hi || (Last(blk, b) < hi && Last(blk, b) in blk)
  }

  ghost predicate Disjoint(blk: Blocks) {
    forall b, c :: b in blk && c in blk && b < c ==> b + Pow2(blk[b].order) <= c
  }

  /** What the list of order k must hold: the free blocks of that order, and on the top list also the
      chunk of pages right after the frontier. */
  ghost predicate Listed(blk: Blocks, hi: int, k: int, i: int) {
    (i in blk && blk[i] == Block(k, Free)) || (k == TOP && i == hi)
  }

  ghost predicate IsHead(h: int) {
    Head(h / 16) == h && 0 <= h / 16 <= TOP
  }

  ghost predicate IsNode(x: int) {
    Node(x / 16) == x
  }

  ghost predicate ListsOk(q: Queues, blk: Blocks, hi: int) {
    && (forall h {:trigger IsHead(h)} :: h in q ==> IsHead(h))
    && (forall k :: 0 <= k <= TOP ==> Head(k) in q)
    && (forall k, i :: 0 <= k <= TOP ==> (Node(i) in q[Head(k)] <==> Listed(blk, hi, k, i)))
    && (forall h, x {:trigger q[h], IsNode(x)} :: h in q && x in q[h] ==> IsNode(x))
  }

  /** Page i is marked as heading a free block of order k. */
  predicate Marked(pages: Pages, i: int, k: int) {
    Pg(pages, i).buddy && Pg(pages, i).order == k
  }

  ghost predicate MarksOk(pages: Pages, blk: Blocks) {
    && (forall i, k :: 0 <= k < TOP ==> (Marked(pages, i, k) <==> i in blk && blk[i] == Block(k, Free)))
    && (forall i :: i in blk && !blk[i].status.Free? ==> !Pg(pages, i).buddy)
  }

  ghost predicate Within(blk: Blocks, b: int, i: int) {
    b in blk && b <= i < Last(blk, b)
  }

  ghost predicate CountsOk(pages: Pages, blk: Blocks, lo: int, hi: int) {
    && (forall i :: lo <= i ==> !Pg(pages, i).resvd)
    && (forall i :: hi <= i ==> Pg(pages, i).count == 0)
    && (forall b, i :: Within(blk, b, i) ==> Pg(pages, i).count == if blk[b].status.InUse? then 1 else 0)
  }

  ghost predicate NumsOk(num: seq<int>, q: Queues) {
    && |num| == TOP + 1 && (forall k :: 0 <= k <= TOP ==> Head(k) in q)
    && (forall k :: 0 <= k < TOP ==> num[k] == |q[Head(k)]|)
  }

  /** Everything but the links in memory. */
  ghost predicate Shape(pages: Pages, num: seq<int>, q: Queues, blk: Blocks, lo: int, hi: int) {
    && Tiles(blk, lo, hi) && ListsOk(q, blk, hi) && MarksOk(pages, blk) && CountsOk(pages, blk, lo, hi) && NumsOk(num, q)
  }

  ghost predicate Inv(m: Mem, pages: Pages, num: seq<int>, q: Queues, blk: Blocks, lo: int, hi: int) {
    Family(m, q) && Shape(pages, num, q, blk, lo, hi)
  }

  // ----- Tiling -----

  lemma TilesStatus(blk: Blocks, lo: int, hi: int, b: int, s: Status)
    requires Tiles(blk, lo, hi) && b in blk
    ensures Tiles(blk[b := Block(blk[b].order, s)], lo, hi)
  {
    var blk' := blk[b := Block(blk[b].order, s)];
    forall c {:trigger Last(blk', c)} | c in blk' ensures Last(blk', c) == Last(blk, c) {}
  }

  /** Block b and the place u where its upper half starts. */
  ghost predicate Half(blk: Blocks, b: int, u: int) {
    b in blk && 0 < blk[b].order <= TOP && u == b + Pow2(blk[b].order - 1)
  }

  ghost function Halved(blk: Blocks, b: int, u: int): Blocks
    requires b in blk
  {
    blk[b := Block(blk[b].order - 1, blk[b].status)][u := Block(blk[b].order - 1, Free)]
  }

  lemma HalfFits(blk: Blocks, b: int, u: int)
    requires Disjoint(blk) && Half(blk, b, u)
    ensures u !in blk && b < u < Last(blk, b) && Last(blk, b) - u == u - b == Pow2(blk[b].order - 1)
  {
    assert Pow2(blk[b].order) == 2 * Pow2(blk[b].order - 1);
  }

  lemma TilesHalved(blk: Blocks, lo: int, hi: int, b: int, u: int)
    requires Tiles(blk, lo, hi) && Half(blk, b, u)
    ensures Tiles(Halved(blk, b, u), lo, hi) && u !in blk && u < hi
  {
    HalfFits(blk, b, u);
    HalvedDisjoint(blk, b, u);
    HalvedChained(blk, hi, b, u);
  }

  lemma HalvedDisjoint(blk: Blocks, b: int, u: int)
    requires Disjoint(blk) && Half(blk, b, u)
    ensures Disjoint(Halved(blk, b, u))
  {
    HalfFits(blk, b, u);
    var blk' := Halved(blk, b, u);
    forall c, d | c in blk' && d in blk' && c < d ensures c + Pow2(blk'[c].order) <= d {
      HalvedPair(blk, b, u, c, d);
    }
  }

  lemma HalvedPair(blk: Blocks, b: int, u: int, c: int, d: int)
    requires Disjoint(blk) && Half(blk, b, u) && u !in blk && b < u < Last(blk, b) && Last(blk, b) - u == u - b == Pow2(blk[b].order - 1)
    requires c in Halved(blk, b, u) && d in Halved(blk, b, u) && c < d
    ensures c + Pow2(Halved(blk, b, u)[c].order) <= d
  {
    if c != b && c != u {
      if d == u { assert c < b || b < c; }
    } else if d != u {
      assert b < d ==> Last(blk, b) <= d;
    }
  }

  lemma HalvedChained(blk: Blocks, hi: int, b: int, u: int)
    requires Disjoint(blk) && Chained(blk, hi) && Half(blk, b, u)
    ensures Chained(Halved(blk, b, u), hi)
  {
    HalfFits(blk, b, u);
    var blk' := Halved(blk, b, u);
    assert Last(blk', b) == u && Last(blk', u) == Last(blk, b);
    forall c {:trigger Last(blk', c)} | c in blk && c != b ensures Last(blk', c) == Last(blk, c) {}
  }

  /** Joining a block with the free block of the same order next to it. */
  ghost function Joined(blk: Blocks, b: int, c: int): Blocks
    requires b in blk
  {
    var x, y := if b < c then b else c, if b < c then c else b;
    (blk - {y})[x := Block(blk[b].order + 1, blk[b].status)]
  }

  lemma TilesJoined(blk: Blocks, lo: int, hi: int, b: int, c: int)
    requires Tiles(blk, lo, hi) && b in blk && c in blk && blk[b].order == blk[c].order < TOP
    requires c == b + Pow2(blk[b].order) || b == c + Pow2(blk[b].order)
    ensures Tiles(Joined(blk, b, c), lo, hi)
  {
    var x, y := if b < c then b else c, if b < c then c else b;
    JoinedDisjoint(blk, b, c, x, y);
    JoinedChained(blk, hi, b, c, x, y);
  }

  lemma JoinedDisjoint(blk: Blocks, b: int, c: int, x: int, y: int)
    requires Disjoint(blk) && b in blk && c in blk && blk[b].order == blk[c].order >= 0
    requires ((x == b && y == c) || (x == c && y == b)) && y == x + Pow2(blk[b].order)
    ensures Disjoint(Joined(blk, b, c))
  {
    var blk' := Joined(blk, b, c);
    assert x + Pow2(blk'[x].order) == y + Pow2(blk[y].order);
    forall d, e | d in blk' && e in blk' && d < e ensures d + Pow2(blk'[d].order) <= e {
      if d != x { assert blk'[d] == blk[d]; }
    }
  }

  lemma JoinedChained(blk: Blocks, hi: int, b: int, c: int, x: int, y: int)
    requires Disjoint(blk) && Chained(blk, hi) && b in blk && c in blk && blk[b].order == blk[c].order >= 0
    requires ((x == b && y == c) || (x == c && y == b)) && y == x + Pow2(blk[b].order)
    ensures Chained(Joined(blk, b, c), hi)
  {
    var blk' := Joined(blk, b, c);
    assert Last(blk', x) == Last(blk, y);
    forall d {:trigger Last(blk', d)} | d in blk' && d != x ensures Last(blk', d) == Last(blk, d) && Last(blk, d) != y {}
  }

  /** Flipping bit k of a block number names the block of the same order right after or right before, as the
      bit is clear or set, whatever the alignment of the block; and the number and its flip together have the
      bits of the lower one, where the joined block starts. */
  lemma FlipAdjacent(i: int, k: int)
    ensures Flip(i, k) == if BitClear(i, k) then i + Pow2(k) else i - Pow2(k)
    ensures Flip(Flip(i, k), k) == i
    ensures And(i, Flip(i, k)) == Lower(i, Flip(i, k))
  {
    var p := Pow2(k);
    XorBit(i, k);
    XorBit(Flip(i, k), k);
    AndXorBit(i, k);
    ModShift(i, 2 * p, if BitClear(i, k) then p else -p);
  }

  /** The source keeps block numbers in words (of w = 32 bits); its exclusive or and its and yield the words of
      the flipped number and of the lower one. */
  lemma FlipOnWords(i: int, k: int, w: nat, pageIdx: int, buddyIdx: int)
    requires pageIdx == i % Pow2(w) && buddyIdx == XorWord(pageIdx, Pow2(k), w)
    ensures buddyIdx == Flip(i, k) % Pow2(w) && AndWord(pageIdx, buddyIdx, w) == Lower(i, Flip(i, k)) % Pow2(w)
  {
    var j := Flip(i, k);
    ModTwice(i, Pow2(w));
    ModTwice(j, Pow2(w));
    SameWords(pageIdx, i, Pow2(k), Pow2(k), w);
    XorWordIs(i, Pow2(k), w);
    SameWords(pageIdx, i, buddyIdx, j, w);
    AndWordIs(i, j, w);
    AndXorBit(i, k);
  }

  /** Every page below the frontier lies in exactly one block. */
  lemma {:induction false} PagesConserved(blk: Blocks, lo: int, hi: int, i: int)
    requires Tiles(blk, lo, hi) && lo <= i < hi
    ensures exists b :: Within(blk, b, i) && forall c :: Within(blk, c, i) ==> c == b
    decreases i - lo
  {
    if i == lo {
      assert Within(blk, lo, i);
    } else {
      PagesConserved(blk, lo, hi, i - 1);
      var b :| Within(blk, b, i - 1);
      if i == Last(blk, b) { assert Within(blk, i, i); } else { assert Within(blk, b, i); }
    }
  }

  // ----- Lists and marks -----

  /** A page heading no listed block is on no list. */
  lemma NotListed(q: Queues, blk: Blocks, hi: int, i: int)
    requires ListsOk(q, blk, hi) && i != hi && (i in blk ==> !blk[i].status.Free?)
    ensures Loose(q, Node(i))
  {
    NodeIsNoHead(i);
    forall h | h in q ensures Node(i) !in q[h] {
      assert IsHead(h);
      assert Node(i) in q[Head(h / 16)] <==> Listed(blk, hi, h / 16, i);
    }
  }

  lemma NodeIsNoHead(i: int)
    ensures !IsHead(Node(i)) && Aligned(Node(i))
  {
  }

  ghost function Pushed(q: Queues, k: int, i: int): Queues
    requires Head(k) in q
  {
    q[Head(k) := [Node(i)] + q[Head(k)]]
  }

  /** set_page_order and rmv_page_order. */
  function SetOrder(pages: Pages, i: int, k: int): Pages {
    pages[i := Pg(pages, i).(buddy := true, order := k)]
  }

  function RmvOrder(pages: Pages, i: int): Pages {
    pages[i := Pg(pages, i).(buddy := false, order := 0)]
  }

  /** A block that becomes free of order k joins list k. */
  lemma ListsPush(q: Queues, blk: Blocks, blk': Blocks, hi: int, k: int, i: int)
    requires ListsOk(q, blk, hi) && 0 <= k <= TOP
    requires i in blk' && blk'[i] == Block(k, Free)
    requires forall j, k' :: j != i || k' != k ==> (Listed(blk', hi, k', j) <==> Listed(blk, hi, k', j))
    ensures ListsOk(Pushed(q, k, i), blk', hi)
  {
    var q' := Pushed(q, k, i);
    forall k', j | 0 <= k' <= TOP ensures Node(j) in q'[Head(k')] <==> Listed(blk', hi, k', j) {
      assert Node(j) in q[Head(k')] <==> Listed(blk, hi, k', j);
    }
    forall h, x {:trigger q'[h], IsNode(x)} | h in q' && x in q'[h] ensures IsNode(x) {
      if x in q[h] { assert IsNode(x); } else { assert x == Node(i); }
    }
    forall h {:trigger IsHead(h)} | h in q' ensures IsHead(h) { assert h in q; }
  }

  /** A block that stops being listed leaves list k, where it was the n-th node. */
  lemma ListsDrop(m: Mem, q: Queues, blk: Blocks, blk': Blocks, hi: int, hi': int, k: int, n: nat, i: int)
    requires Family(m, q) && ListsOk(q, blk, hi) && 0 <= k <= TOP && n < |q[Head(k)]| && q[Head(k)][n] == Node(i)
    requires forall j, k' :: Listed(blk', hi', k', j) <==> Listed(blk, hi, k', j) && !(j == i && k' == k)
    ensures ListsOk(Dropped(q, Head(k), n), blk', hi')
  {
    var h := Head(k);
    var q', s := Dropped(q, h, n), q[h];
    RemovedGone(h, s, n);
    forall k', j | 0 <= k' <= TOP ensures Node(j) in q'[Head(k')] <==> Listed(blk', hi', k', j) {
      assert Node(j) in q[Head(k')] <==> Listed(blk, hi, k', j);
      if k' == k { InRemoved(s, n, Node(j)); }
    }
    forall g, x {:trigger q'[g], IsNode(x)} | g in q' && x in q'[g] ensures IsNode(x) {
      if g == h { InRemoved(s, n, x); }
      assert x in q[g];
    }
    forall g {:trigger IsHead(g)} | g in q' ensures IsHead(g) { assert g in q; }
  }

  lemma InRemoved(s: seq<int>, n: nat, x: int)
    requires n < |s| && s[n] !in RemoveAt(s, n)
    ensures x in RemoveAt(s, n) <==> x in s && x != s[n]
  {
    if x in s && x != s[n] {
      var i :| 0 <= i < |s| && s[i] == x;
      assert RemoveAt(s, n)[if i < n then i else i - 1] == x;
    }
  }

  // ----- Single steps of the allocator -----

  /** expand: block b, off the lists, is halved and its upper half goes on the list one order down. */
  lemma HalveKeeps(pages: Pages, num: seq<int>, q: Queues, blk: Blocks, lo: int, hi: int, b: int, u: int, k: int)
    requires Shape(pages, num, q, blk, lo, hi) && Half(blk, b, u) && blk[b].status.Raw? && k == blk[b].order - 1
    ensures Loose(q, Node(u))
    ensures Shape(SetOrder(pages, u, k), num[k := num[k] + 1], Pushed(q, k, u), Halved(blk, b, u), lo, hi)
  {
    TilesHalved(blk, lo, hi, b, u);
    NotListed(q, blk, hi, u);
    ListsPush(q, blk, Halved(blk, b, u), hi, k, u);
    HalveCounts(pages, blk, lo, hi, b, u, k);
    HalveMarks(pages, blk, b, u, k);
    NumsPush(num, q, k, u);
  }

  lemma NumsPush(num: seq<int>, q: Queues, k: int, i: int)
    requires NumsOk(num, q) && 0 <= k <= TOP
    ensures NumsOk(num[k := num[k] + 1], Pushed(q, k, i))
  {
  }

  lemma HalveMarks(pages: Pages, blk: Blocks, b: int, u: int, k: int)
    requires MarksOk(pages, blk) && b in blk && blk[b].status.Raw? && k == blk[b].order - 1 < TOP && u !in blk
    ensures MarksOk(SetOrder(pages, u, k), Halved(blk, b, u))
  {
    var pages', blk' := SetOrder(pages, u, k), Halved(blk, b, u);
    forall i, j | 0 <= j < TOP ensures Marked(pages', i, j) <==> i in blk' && blk'[i] == Block(j, Free) {
      assert Marked(pages, i, j) <==> i in blk && blk[i] == Block(j, Free);
    }
  }

  lemma HalveCounts(pages: Pages, blk: Blocks, lo: int, hi: int, b: int, u: int, k: int)
    requires Disjoint(blk) && CountsOk(pages, blk, lo, hi) && Half(blk, b, u) && blk[b].status.Raw?
    ensures CountsOk(SetOrder(pages, u, k), Halved(blk, b, u), lo, hi)
  {
    var pages', blk' := SetOrder(pages, u, k), Halved(blk, b, u);
    HalfFits(blk, b, u);
    forall c, i | Within(blk', c, i) ensures Pg(pages', i).count == if blk'[c].status.InUse? then 1 else 0 {
      if c == b || c == u { assert Within(blk, b, i); } else { assert Within(blk, c, i); }
    }
    SameCounts(pages, u, k);
  }

  /** Marking a page changes no count. */
  lemma SameCounts(pages: Pages, u: int, k: int)
    ensures forall i :: Pg(SetOrder(pages, u, k), i).resvd == Pg(pages, i).resvd && Pg(SetOrder(pages, u, k), i).count == Pg(pages, i).count
    ensures forall i :: Pg(RmvOrder(pages, u), i).resvd == Pg(pages, i).resvd && Pg(RmvOrder(pages, u), i).count == Pg(pages, i).count
  {
  }

  /** Taking the n-th block off a list below the top one. */
  lemma DetachKeeps(m: Mem, pages: Pages, num: seq<int>, q: Queues, blk: Blocks, lo: int, hi: int, k: int, n: nat, p: int)
    requires Inv(m, pages, num, q, blk, lo, hi) && 0 <= k < TOP && p in blk && blk[p] == Block(k, Free)
    requires n < |q[Head(k)]| && q[Head(k)][n] == Node(p)
    ensures Shape(RmvOrder(pages, p), num[k := num[k] - 1], Dropped(q, Head(k), n), blk[p := Block(k, Raw)], lo, hi)
  {
    var blk' := blk[p := Block(k, Raw)];
    TilesStatus(blk, lo, hi, p, Raw);
    ListsDrop(m, q, blk, blk', hi, hi, k, n, p);
    RawMarks(pages, blk, p);
    StatusCounts(pages, blk, lo, hi, p, Raw);
    RmvCounts(pages, blk', lo, hi, p);
    assert NumsOk(num[k := num[k] - 1], Dropped(q, Head(k), n));
  }

  lemma RawMarks(pages: Pages, blk: Blocks, p: int)
    requires MarksOk(pages, blk) && p in blk
    ensures MarksOk(RmvOrder(pages, p), blk[p := Block(blk[p].order, Raw)])
  {
    var pages', blk' := RmvOrder(pages, p), blk[p := Block(blk[p].order, Raw)];
    forall i, j | 0 <= j < TOP ensures Marked(pages', i, j) <==> i in blk' && blk'[i] == Block(j, Free) {
      assert Marked(pages, i, j) <==> i in blk && blk[i] == Block(j, Free);
    }
  }

  lemma StatusCounts(pages: Pages, blk: Blocks, lo: int, hi: int, p: int, s: Status)
    requires CountsOk(pages, blk, lo, hi) && p in blk && (s.InUse? <==> blk[p].status.InUse?)
    ensures CountsOk(pages, blk[p := Block(blk[p].order, s)], lo, hi)
  {
    var blk' := blk[p := Block(blk[p].order, s)];
    forall b, i | Within(blk', b, i) ensures Pg(pages, i).count == if blk'[b].status.InUse? then 1 else 0 {
      assert Within(blk, b, i);
    }
  }

  lemma RmvCounts(pages: Pages, blk: Blocks, lo: int, hi: int, p: int)
    requires CountsOk(pages, blk, lo, hi)
    ensures CountsOk(RmvOrder(pages, p), blk, lo, hi)
  {
    SameCounts(pages, p, 0);
  }

  lemma SetCounts(pages: Pages, blk: Blocks, lo: int, hi: int, p: int, k: int)
    requires CountsOk(pages, blk, lo, hi)
    ensures CountsOk(SetOrder(pages, p, k), blk, lo, hi)
  {
    SameCounts(pages, p, k);
  }

  /** Taking the frontier chunk: it becomes a block, and the chunk after it is seeded in its place. */
  lemma SeedKeeps(m: Mem, pages: Pages, num: seq<int>, q: Queues, blk: Blocks, lo: int, p: int, n: nat, hi': int)
    requires Inv(m, pages, num, q, blk, lo, p) && hi' == p + Pow2(TOP)
    requires n < |q[Head(TOP)]| && q[Head(TOP)][n] == Node(p)
    ensures Loose(Dropped(q, Head(TOP), n), Node(hi'))
    ensures Shape(RmvOrder(pages, p), num[TOP := num[TOP] - 1], Pushed(Dropped(q, Head(TOP), n), TOP, hi'),
                  blk[p := Block(TOP, Raw)], lo, hi')
  {
    var blk' := blk[p := Block(TOP, Raw)];
    TilesSeed(blk, lo, p, hi');
    ListsSeed(m, q, blk, p, hi', n);
    RawMarksNew(pages, blk, p);
    assert CountsOk(pages, blk', lo, hi') by {
      forall b, i | Within(blk', b, i) ensures Pg(pages, i).count == if blk'[b].status.InUse? then 1 else 0 {
        if b != p { assert Within(blk, b, i); }
      }
    }
    RmvCounts(pages, blk', lo, hi', p);
    SeedNums(num, q, n, hi');
  }

  lemma SeedNums(num: seq<int>, q: Queues, n: nat, hi': int)
    requires NumsOk(num, q) && n < |q[Head(TOP)]|
    ensures NumsOk(num[TOP := num[TOP] - 1], Pushed(Dropped(q, Head(TOP), n), TOP, hi'))
  {
  }

  lemma TilesSeed(blk: Blocks, lo: int, hi: int, hi': int)
    requires Tiles(blk, lo, hi) && hi' == hi + Pow2(TOP)
    ensures Tiles(blk[hi := Block(TOP, Raw)], lo, hi') && hi !in blk && hi' !in blk
  {
    var blk' := blk[hi := Block(TOP, Raw)];
    forall b | b in blk ensures b + Pow2(blk[b].order) <= hi { assert Last(blk, b) <= hi; }
    assert Last(blk', hi) == hi';
    forall b {:trigger Last(blk', b)} | b in blk ensures Last(blk', b) == Last(blk, b) {}
  }

  lemma ListsSeed(m: Mem, q: Queues, blk: Blocks, hi: int, hi': int, n: nat)
    requires Family(m, q) && ListsOk(q, blk, hi) && hi !in blk && hi' !in blk && hi != hi'
    requires n < |q[Head(TOP)]| && q[Head(TOP)][n] == Node(hi)
    ensures Loose(Dropped(q, Head(TOP), n), Node(hi'))
    ensures ListsOk(Pushed(Dropped(q, Head(TOP), n), TOP, hi'), blk[hi := Block(TOP, Raw)], hi')
  {
    var h, blk' := Head(TOP), blk[hi := Block(TOP, Raw)];
    var s, q1 := q[h], Dropped(q, h, n);
    var q' := Pushed(q1, TOP, hi');
    RemovedGone(h, s, n);
    NotListed(q, blk, hi, hi');
    InRemoved(s, n, Node(hi'));
    forall k, j | 0 <= k <= TOP ensures Node(j) in q'[Head(k)] <==> Listed(blk', hi', k, j) {
      assert Node(j) in q[Head(k)] <==> Listed(blk, hi, k, j);
      if k == TOP { InRemoved(s, n, Node(j)); }
    }
    forall g, x {:trigger q'[g], IsNode(x)} | g in q' && x in q'[g] ensures IsNode(x) {
      if g == h { InRemoved(s, n, x); }
      if x in q[g] { assert IsNode(x); } else { assert x == Node(hi'); }
    }
    forall g {:trigger IsHead(g)} | g in q' ensures IsHead(g) { assert g in q; }
  }

  lemma RawMarksNew(pages: Pages, blk: Blocks, p: int)
    requires MarksOk(pages, blk) && p !in blk
    ensures MarksOk(RmvOrder(pages, p), blk[p := Block(TOP, Raw)])
  {
    var pages', blk' := RmvOrder(pages, p), blk[p := Block(TOP, Raw)];
    forall i, j | 0 <= j < TOP ensures Marked(pages', i, j) <==> i in blk' && blk'[i] == Block(j, Free) {
      assert Marked(pages, i, j) <==> i in blk && blk[i] == Block(j, Free);
    }
  }

  /** Two neighbouring blocks off the lists become one of twice the size. */
  lemma JoinKeeps(pages: Pages, num: seq<int>, q: Queues, blk: Blocks, lo: int, hi: int, b: int, c: int)
    requires Shape(pages, num, q, blk, lo, hi)
    requires b in blk && c in blk && blk[b] == blk[c] && blk[b].status.Raw? && blk[b].order < TOP
    requires c == b + Pow2(blk[b].order) || b == c + Pow2(blk[b].order)
    ensures Shape(pages, num, q, Joined(blk, b, c), lo, hi)
  {
    TilesJoined(blk, lo, hi, b, c);
    JoinLists(q, blk, hi, b, c);
    JoinCounts(pages, blk, lo, hi, b, c);
    JoinMarks(pages, blk, b, c);
  }

  lemma JoinLists(q: Queues, blk: Blocks, hi: int, b: int, c: int)
    requires ListsOk(q, blk, hi) && b in blk && c in blk && blk[b] == blk[c] && blk[b].status.Raw?
    ensures ListsOk(q, Joined(blk, b, c), hi)
  {
    var blk' := Joined(blk, b, c);
    assert forall k, i :: Listed(blk', hi, k, i) <==> Listed(blk, hi, k, i);
  }

  lemma JoinMarks(pages: Pages, blk: Blocks, b: int, c: int)
    requires MarksOk(pages, blk) && b in blk && c in blk && blk[b] == blk[c] && blk[b].status.Raw?
    ensures MarksOk(pages, Joined(blk, b, c))
  {
    var blk' := Joined(blk, b, c);
    forall i, j | 0 <= j < TOP ensures Marked(pages, i, j) <==> i in blk' && blk'[i] == Block(j, Free) {
      assert Marked(pages, i, j) <==> i in blk && blk[i] == Block(j, Free);
    }
  }

  lemma JoinCounts(pages: Pages, blk: Blocks, lo: int, hi: int, b: int, c: int)
    requires CountsOk(pages, blk, lo, hi)
    requires b in blk && c in blk && blk[b] == blk[c] && blk[b].status.Raw? && 0 <= blk[b].order
    requires c == b + Pow2(blk[b].order) || b == c + Pow2(blk[b].order)
    ensures CountsOk(pages, Joined(blk, b, c), lo, hi)
  {
    var blk' := Joined(blk, b, c);
    assert Pow2(blk[b].order + 1) == 2 * Pow2(blk[b].order);
    forall d, i | Within(blk', d, i) ensures Pg(pages, i).count == if blk'[d].status.InUse? then 1 else 0 {
      if d == b || d == c { assert Within(blk, b, i) || Within(blk, c, i); } else { assert Within(blk, d, i); }
    }
  }

  /** A block off the lists joins the list of its order. */
  lemma SettleKeeps(pages: Pages, num: seq<int>, q: Queues, blk: Blocks, lo: int, hi: int, b: int, k: int)
    requires Shape(pages, num, q, blk, lo, hi) && b in blk && blk[b] == Block(k, Raw)
    ensures Loose(q, Node(b))
    ensures Shape(SetOrder(pages, b, k), num[k := num[k] + 1], Pushed(q, k, b), blk[b := Block(k, Free)], lo, hi)
  {
    var blk' := blk[b := Block(k, Free)];
    TilesStatus(blk, lo, hi, b, Free);
    assert Last(blk, b) <= hi;
    NotListed(q, blk, hi, b);
    ListsPush(q, blk, blk', hi, k, b);
    SettleMarks(pages, blk, b, k);
    StatusCounts(pages, blk, lo, hi, b, Free);
    SetCounts(pages, blk', lo, hi, b, k);
    NumsPush(num, q, k, b);
  }

  lemma SettleMarks(pages: Pages, blk: Blocks, b: int, k: int)
    requires MarksOk(pages, blk) && b in blk && blk[b] == Block(k, Raw)
    ensures MarksOk(SetOrder(pages, b, k), blk[b := Block(k, Free)])
  {
    var pages', blk' := SetOrder(pages, b, k), blk[b := Block(k, Free)];
    forall i, j | 0 <= j < TOP ensures Marked(pages', i, j) <==> i in blk' && blk'[i] == Block(j, Free) {
      assert Marked(pages, i, j) <==> i in blk && blk[i] == Block(j, Free);
    }
  }

  /** page_is_buddy and page_is_ok: the page heads a free block of that order, and only then. */
  lemma BuddyTest(pages: Pages, blk: Blocks, lo: int, hi: int, c: int, k: int)
    requires Tiles(blk, lo, hi) && MarksOk(pages, blk) && CountsOk(pages, blk, lo, hi) && 0 <= k < TOP
    ensures Marked(pages, c, k) && Pg(pages, c).count == 0 && !Pg(pages, c).resvd <==> c in blk && blk[c] == Block(k, Free)
  {
    if c in blk && blk[c] == Block(k, Free) { assert Within(blk, c, c); }
  }

  // ----- Page counts -----

  /** pages with the count of every page in [b, b + n) raised by d. */
  ghost predicate Recounted(pages: Pages, pages': Pages, b: int, n: int, d: int) {
    forall i :: Pg(pages', i) == Pg(pages, i).(count := Pg(pages, i).count + if b <= i < b + n then d else 0)
  }

  /** Raising or lowering the counts of a whole block by one switches it between Raw and InUse. */
  lemma RecountKeeps(pages: Pages, pages': Pages, num: seq<int>, q: Queues, blk: Blocks, lo: int, hi: int, b: int, s: Status)
    requires Shape(pages, num, q, blk, lo, hi) && b in blk && !blk[b].status.Free? && !s.Free? && s != blk[b].status
    requires Recounted(pages, pages', b, Pow2(blk[b].order), if s.InUse? then 1 else -1)
    ensures Shape(pages', num, q, blk[b := Block(blk[b].order, s)], lo, hi)
  {
    var blk' := blk[b := Block(blk[b].order, s)];
    TilesStatus(blk, lo, hi, b, s);
    assert Last(blk, b) <= hi;
    forall k, i | 0 <= k <= TOP ensures Listed(blk', hi, k, i) <==> Listed(blk, hi, k, i) {}
    forall i, j | 0 <= j < TOP ensures Marked(pages', i, j) <==> i in blk' && blk'[i] == Block(j, Free) {
      assert Marked(pages, i, j) <==> i in blk && blk[i] == Block(j, Free);
    }
    RecountCounts(pages, pages', blk, lo, hi, b, s);
  }

  lemma RecountCounts(pages: Pages, pages': Pages, blk: Blocks, lo: int, hi: int, b: int, s: Status)
    requires CountsOk(pages, blk, lo, hi) && Disjoint(blk) && b in blk && !s.Free? && s != blk[b].status && !blk[b].status.Free?
    requires Last(blk, b) <= hi && Recounted(pages, pages', b, Pow2(blk[b].order), if s.InUse? then 1 else -1)
    ensures CountsOk(pages', blk[b := Block(blk[b].order, s)], lo, hi)
  {
    var blk' := blk[b := Block(blk[b].order, s)];
    forall c, i | Within(blk', c, i) ensures Pg(pages', i).count == if blk'[c].status.InUse? then 1 else 0 {
      assert Within(blk, c, i);
    }
  }
}
