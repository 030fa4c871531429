/** A tag for folding: a predicate stated as `forall t :: Token(t) ==> P` keeps P out of the way until Token is
    mentioned, so a long invariant can be carried through a method without being unfolded. */
module Folding {
  ghost predicate Token(t: int) { true }
}

/** Flat word memory: a partial map from byte addresses to the 32-bit words stored there.
    A word nobody wrote reads as zero; nothing below depends on that value. */
module Words {
  type Mem = map<int, int>

  function Rd(m: Mem, a: int): int {
    if a in m then m[a] else 0
  }

  /** m and n hold the same word at every address outside `touched`. */
  ghost predicate SameExcept(m: Mem, n: Mem, touched: set<int>) {
    forall a :: a !in touched ==> Rd(n, a) == Rd(m, a)
  }

  lemma SameThrough(m: Mem, n: Mem, o: Mem, s: set<int>, t: set<int>, u: set<int>)
    requires SameExcept(m, n, s) && SameExcept(n, o, t) && s + t <= u
    ensures SameExcept(m, o, u)
  {
  }
}

/** Insertion into and removal from sequences. */
module Seqs {
  ghost function InsertAt(s: seq<int>, k: nat, e: int): seq<int>
    requires k <= |s|
  {
    s[..k] + [e] + s[k..]
  }

  ghost function RemoveAt(s: seq<int>, k: nat): seq<int>
    requires k < |s|
  {
    s[..k] + s[k + 1..]
  }

  /** s without the element c. */
  ghost function Without(s: seq<int>, c: int): seq<int> {
    if s == [] then [] else (if s[0] == c then [] else [s[0]]) + Without(s[1..], c)
  }

  lemma {:induction false} WithoutAbsent(s: seq<int>, c: int)
    requires c !in s
    ensures Without(s, c) == s
  {
    if s != [] { WithoutAbsent(s[1..], c); }
  }

  lemma {:induction false} WithoutIn(s: seq<int>, c: int, x: int)
    ensures x in Without(s, c) <==> x in s && x != c
  {
    if s != [] {
      WithoutIn(s[1..], c, x);
      assert x in s <==> x == s[0] || x in s[1..];
    }
  }

  lemma {:induction false} WithoutAt(s: seq<int>, k: nat)
    requires k < |s| && forall i :: 0 <= i < |s| && i != k ==> s[i] != s[k]
    ensures Without(s, s[k]) == RemoveAt(s, k)
  {
    if k == 0 {
      WithoutAbsent(s[1..], s[0]);
    } else {
      WithoutAt(s[1..], k - 1);
      assert RemoveAt(s, k) == [s[0]] + RemoveAt(s[1..], k - 1);
    }
  }
}

/** Circular doubly linked lists threaded through flat memory. A node is an address x; its forward
    link is the word at x + lay.fwd and its backward link the word at x + lay.bwd. */
module Rings {
  import opened Words
  import opened Seqs

  datatype Layout = Layout(fwd: int, bwd: int)

  ghost predicate Adjacent(lay: Layout) {
    lay.fwd - lay.bwd == 4 || lay.bwd - lay.fwd == 4
  }

  function Fwd(m: Mem, lay: Layout, x: int): int { Rd(m, x + lay.fwd) }

  function Bwd(m: Mem, lay: Layout, x: int): int { Rd(m, x + lay.bwd) }

  /** Two nodes whose link words cannot overlap. */
  ghost predicate Apart(x: int, y: int) {
    x + 8 <= y || y + 8 <= x
  }

  /** The i-th node met on a turn around the list h, s: the head, the elements, the head again. */
  ghost function At(h: int, s: seq<int>, i: int): int {
    if 0 < i <= |s| then s[i - 1] else h
  }

  ghost predicate ApartAt(h: int, s: seq<int>, i: int, j: int) {
    Apart(At(h, s, i), At(h, s, j))
  }

  ghost predicate Spaced(h: int, s: seq<int>) {
    forall i, j :: 0 <= i < j <= |s| ==> ApartAt(h, s, i, j)
  }

  /** The i-th and the next node of the turn point at each other. */
  ghost predicate Link(m: Mem, lay: Layout, h: int, s: seq<int>, i: int) {
    Fwd(m, lay, At(h, s, i)) == At(h, s, i + 1) && Bwd(m, lay, At(h, s, i + 1)) == At(h, s, i)
  }

  /** The list headed by h holds exactly the nodes s, in that order. */
  ghost predicate Ring(m: Mem, lay: Layout, h: int, s: seq<int>) {
    && Spaced(h, s)
    && forall i :: 0 <= i <= |s| ==> Link(m, lay, h, s, i)
  }

  ghost function Links(lay: Layout, x: int): set<int> {
    {x + lay.fwd, x + lay.bwd}
  }

  /** A ring survives any change outside the link words of its own nodes. */
  lemma RingFrame(m: Mem, n: Mem, lay: Layout, h: int, s: seq<int>)
    requires Ring(m, lay, h, s)
    requires Fwd(n, lay, h) == Fwd(m, lay, h) && Bwd(n, lay, h) == Bwd(m, lay, h)
    requires forall x :: x in s ==> Fwd(n, lay, x) == Fwd(m, lay, x) && Bwd(n, lay, x) == Bwd(m, lay, x)
    ensures Ring(n, lay, h, s)
  {
    forall i | 0 <= i <= |s| ensures Link(n, lay, h, s, i) {
      assert Link(m, lay, h, s, i);
    }
  }

  lemma AtInsert(h: int, s: seq<int>, k: nat, e: int, i: int)
    requires k <= |s| && 0 <= i <= |s| + 2
    ensures At(h, InsertAt(s, k, e), i) == if i <= k then At(h, s, i) else if i == k + 1 then e else At(h, s, i - 1)
  {
  }

  lemma AtRemove(h: int, s: seq<int>, k: nat, i: int)
    requires k < |s| && 0 <= i <= |s|
    ensures At(h, RemoveAt(s, k), i) == if i <= k then At(h, s, i) else At(h, s, i + 1)
  {
  }

  lemma Distinct(h: int, s: seq<int>, i: nat, j: nat)
    requires Spaced(h, s) && i <= |s| && j <= |s| && i != j
    ensures Apart(At(h, s, i), At(h, s, j))
  {
    assert ApartAt(h, s, i, j) || ApartAt(h, s, j, i);
  }

  /** Splicing e between two neighbours of a ring inserts it at that place. */
  lemma RingInsert(m: Mem, n: Mem, lay: Layout, h: int, s: seq<int>, k: nat, e: int)
    requires Adjacent(lay) && Ring(m, lay, h, s) && k <= |s|
    requires Apart(h, e) && forall x :: x in s ==> Apart(x, e)
    requires var a, b := At(h, s, k), At(h, s, k + 1);
             && Fwd(n, lay, a) == e && Bwd(n, lay, e) == a
             && Fwd(n, lay, e) == b && Bwd(n, lay, b) == e
             && SameExcept(m, n, {a + lay.fwd, b + lay.bwd} + Links(lay, e))
    ensures Ring(n, lay, h, InsertAt(s, k, e))
  {
    var s' := InsertAt(s, k, e);
    forall i, j | 0 <= i < j <= |s'| ensures ApartAt(h, s', i, j) {
      AtInsert(h, s, k, e, i);
      AtInsert(h, s, k, e, j);
      var i', j' := if i <= k then i else i - 1, if j <= k then j else j - 1;
      if i != k + 1 && j != k + 1 {
        Distinct(h, s, i', j');
      } else {
        assert Apart(At(h, s, if i == k + 1 then j' else i'), e);
      }
    }
    forall i | 0 <= i <= |s'| ensures Link(n, lay, h, s', i) {
      AtInsert(h, s, k, e, i);
      AtInsert(h, s, k, e, i + 1);
      if i < k || i > k + 1 {
        var j := if i < k then i else i - 1;
        assert Link(m, lay, h, s, j);
        SameLink(m, n, lay, h, s, j, k, k, e);
      }
    }
  }

  /** Link j is untouched when only the inner words of links lo..hi and of a detached node change. */
  lemma SameLink(m: Mem, n: Mem, lay: Layout, h: int, s: seq<int>, j: nat, lo: nat, hi: nat, e: int)
    requires Adjacent(lay) && Spaced(h, s) && Link(m, lay, h, s, j)
    requires j <= |s| && lo <= hi <= |s| && (j < lo || hi < j)
    requires Apart(At(h, s, j), e) && Apart(At(h, s, j + 1), e)
    requires SameExcept(m, n, {At(h, s, lo) + lay.fwd, At(h, s, hi + 1) + lay.bwd} + Links(lay, e))
    ensures Link(n, lay, h, s, j)
  {
    var x, y, a, b := At(h, s, j), At(h, s, j + 1), At(h, s, lo), At(h, s, hi + 1);
    Distinct(h, s, j, lo);
    var j1, b1 := if j == |s| then 0 else j + 1, if hi == |s| then 0 else hi + 1;
    Distinct(h, s, j1, b1);
    assert x != a && y != b;
    if x != b { assert Apart(x, b) by { if j != b1 { Distinct(h, s, j, b1); } } }
    if y != a { assert Apart(y, a) by { if j1 != lo { Distinct(h, s, j1, lo); } } }
  }

  /** Making the neighbours of the k-th node point past it removes exactly that node. */
  lemma RingRemove(m: Mem, n: Mem, lay: Layout, h: int, s: seq<int>, k: nat)
    requires Adjacent(lay) && Ring(m, lay, h, s) && k < |s|
    requires var a, b := At(h, s, k), At(h, s, k + 2);
             && Fwd(n, lay, a) == b && Bwd(n, lay, b) == a
             && SameExcept(m, n, {a + lay.fwd, b + lay.bwd} + Links(lay, s[k]))
    ensures Ring(n, lay, h, RemoveAt(s, k))
  {
    var s' := RemoveAt(s, k);
    forall i, j | 0 <= i < j <= |s'| ensures ApartAt(h, s', i, j) {
      AtRemove(h, s, k, i);
      AtRemove(h, s, k, j);
      Distinct(h, s, if i <= k then i else i + 1, if j <= k then j else j + 1);
    }
    forall i | 0 <= i <= |s'| ensures Link(n, lay, h, s', i) {
      AtRemove(h, s, k, i);
      AtRemove(h, s, k, i + 1);
      if i != k {
        var j := if i < k then i else i + 1;
        assert Link(m, lay, h, s, j);
        Distinct(h, s, k + 1, j);
        Distinct(h, s, k + 1, if j == |s| then 0 else j + 1);
        SameLink(m, n, lay, h, s, j, k, k + 1, s[k]);
      }
    }
  }
}
