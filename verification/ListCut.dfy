/** list_cut, list_splice and list_splice_tail (Include/list.h): whole runs of nodes leave and join a list.
    A sub list is a ring headed by its first node. */
module ListCut {
  import opened Words
  import opened Rings
  import opened Lists

  /** Every node of one ring is apart from every node of the other. */
  ghost predicate Separate(h: int, s: seq<int>, b: int, t: seq<int>) {
    forall i, j {:trigger At(h, s, i), At(b, t, j)} :: 0 <= i <= |s| && 0 <= j <= |t| ==> Apart(At(h, s, i), At(b, t, j))
  }

  /** The four words that change when the first k nodes leave the ring of h. */
  ghost function CutWords(h: int, s: seq<int>, k: nat): set<int>
    requires 0 < k <= |s|
  {
    {h + 4, At(h, s, k + 1), s[k - 1] + 4, s[0]}
  }

  /** A link between two other nodes stays. */
  lemma LinkStays(m: Mem, n: Mem, h: int, s: seq<int>, k: nat, j: nat)
    requires Ring(m, NODE, h, s) && 0 < k <= |s| && 0 < j <= |s| && j != k && SameExcept(m, n, CutWords(h, s, k))
    ensures Rd(n, At(h, s, j) + 4) == At(h, s, j + 1) && Rd(n, At(h, s, j + 1)) == At(h, s, j)
  {
    assert Link(m, NODE, h, s, j);
    var next, w := if j == |s| then 0 else j + 1, if k == |s| then 0 else k + 1;
    Distinct(h, s, j, 0);
    Distinct(h, s, j, k);
    Distinct(h, s, next, w);
    if j != w { Distinct(h, s, j, w); }
    if j != 1 { Distinct(h, s, j, 1); }
    if next != 0 { Distinct(h, s, next, 0); }
    if next != 1 { Distinct(h, s, next, 1); }
    if next != k { Distinct(h, s, next, k); }
  }

  lemma AtRest(h: int, s: seq<int>, k: nat, i: nat)
    requires 0 < k <= |s| && i <= |s| - k + 1
    ensures At(h, s[k..], i) == if i == 0 then h else At(h, s, k + i)
  {
  }

  lemma AtSub(h: int, s: seq<int>, k: nat, i: nat)
    requires 0 < k <= |s| && i <= k
    ensures At(s[0], s[1..k], i) == if i == k then s[0] else At(h, s, i + 1)
  {
  }

  /** The rest of the ring closes over the gap. */
  lemma RestIsRing(m: Mem, n: Mem, h: int, s: seq<int>, k: nat)
    requires Ring(m, NODE, h, s) && 0 < k <= |s| && SameExcept(m, n, CutWords(h, s, k))
    requires Rd(n, h + 4) == At(h, s, k + 1) && Rd(n, At(h, s, k + 1)) == h
    ensures Ring(n, NODE, h, s[k..])
  {
    var r := s[k..];
    forall i, j | 0 <= i < j <= |r| ensures ApartAt(h, r, i, j) {
      AtRest(h, s, k, i);
      AtRest(h, s, k, j);
      Distinct(h, s, if i == 0 then 0 else k + i, k + j);
    }
    forall i | 0 <= i <= |r| ensures Link(n, NODE, h, r, i) {
      AtRest(h, s, k, i);
      AtRest(h, s, k, i + 1);
      if i > 0 { LinkStays(m, n, h, s, k, k + i); }
    }
  }

  /** The nodes cut off form a ring of their own. */
  lemma SubIsRing(m: Mem, n: Mem, h: int, s: seq<int>, k: nat)
    requires Ring(m, NODE, h, s) && 0 < k <= |s| && SameExcept(m, n, CutWords(h, s, k))
    requires Rd(n, s[k - 1] + 4) == s[0] && Rd(n, s[0]) == s[k - 1]
    ensures Ring(n, NODE, s[0], s[1..k])
  {
    var r := s[1..k];
    forall i, j | 0 <= i < j <= |r| ensures ApartAt(s[0], r, i, j) {
      AtSub(h, s, k, i);
      AtSub(h, s, k, j);
      Distinct(h, s, i + 1, j + 1);
    }
    forall i | 0 <= i <= |r| ensures Link(n, NODE, s[0], r, i) {
      AtSub(h, s, k, i);
      AtSub(h, s, k, i + 1);
      if i < k - 1 { LinkStays(m, n, h, s, k, i + 1); }
    }
  }

  lemma PartsSeparate(m: Mem, h: int, s: seq<int>, k: nat)
    requires Ring(m, NODE, h, s) && 0 < k <= |s|
    ensures Separate(h, s[k..], s[0], s[1..k])
  {
    forall i, j {:trigger At(h, s[k..], i), At(s[0], s[1..k], j)} | 0 <= i <= |s| - k && 0 <= j <= k - 1
      ensures Apart(At(h, s[k..], i), At(s[0], s[1..k], j))
    {
      AtRest(h, s, k, i);
      AtSub(h, s, k, j);
      Distinct(h, s, if i == 0 then 0 else k + i, j + 1);
    }
  }

  /** How many nodes list_cut takes: those before where, or all when that is none. */
  function CutCount(s: seq<int>, k: nat): nat {
    if k == 0 then |s| else k
  }

  /** list_cut, where `where` is the node after the first k, or the head itself for all of them. A null result
      is 0. With k = 0 the whole list is cut off, although nothing lies between the head and `where`. */
  method ListCut(m: Mem, head: int, where: int, ghost s: seq<int>, ghost k: nat) returns (n: Mem, sub: int)
    requires Ring(m, NODE, head, s) && k <= |s| && where == At(head, s, k + 1)
    ensures s == [] ==> sub == 0 && n == m
    ensures s != [] ==> var c := CutCount(s, k);
              && sub == s[0] && Ring(n, NODE, head, s[c..]) && Ring(n, NODE, sub, s[1..c])
              && Separate(head, s[c..], sub, s[1..c]) && SameExcept(m, n, CutWords(head, s, c))
  {
    assert Link(m, NODE, head, s, 0) && Link(m, NODE, head, s, |s|) && Link(m, NODE, head, s, k);
    n, sub := m, 0;
    if Rd(m, head + 4) == head {
      if s != [] { Distinct(head, s, 0, 1); }
      return;
    }
    ghost var c := CutCount(s, k);
    sub := Rd(m, head + 4);
    Distinct(head, s, 0, 1);
    Distinct(head, s, 0, c);
    if c > 1 { Distinct(head, s, 1, c); }
    if k > 0 && k < |s| {
      Distinct(head, s, 0, k + 1);
      Distinct(head, s, 1, k + 1);
      Distinct(head, s, k, k + 1);
    }
    if sub == where {
      n := n[Rd(n, head) + 4 := sub];
      n := n[sub := Rd(n, head)];
      n := n[head + 4 := head];
      n := n[head := head];
    } else {
      n := n[head + 4 := where];
      n := n[sub := Rd(n, where)];
      n := n[Rd(n, where) + 4 := sub];
      n := n[where := head];
    }
    RestIsRing(m, n, head, s, c);
    SubIsRing(m, n, head, s, c);
    PartsSeparate(m, head, s, c);
  }

  // ----- Joining -----

  /** A link of the ring of h stays when only its i-th link, the links into and out of the sub list, change. */
  lemma HostLink(m: Mem, n: Mem, h: int, s: seq<int>, b: int, t: seq<int>, i: nat, j: nat)
    requires Ring(m, NODE, h, s) && Separate(h, s, b, t) && i <= |s| && j <= |s| && i != j
    requires SameExcept(m, n, {At(h, s, i) + 4, At(h, s, i + 1), b, At(b, t, |t|) + 4})
    ensures Rd(n, At(h, s, j) + 4) == At(h, s, j + 1) && Rd(n, At(h, s, j + 1)) == At(h, s, j)
  {
    assert Link(m, NODE, h, s, j);
    var j1, i1 := if j == |s| then 0 else j + 1, if i == |s| then 0 else i + 1;
    assert At(b, t, 0) == b && At(h, s, j1) == At(h, s, j + 1) && At(h, s, i1) == At(h, s, i + 1);
    assert Apart(At(h, s, j), At(b, t, 0)) && Apart(At(h, s, j), At(b, t, |t|)) && Apart(At(h, s, j1), At(b, t, 0)) && Apart(At(h, s, j1), At(b, t, |t|));
    Distinct(h, s, i, j);
    Distinct(h, s, i1, j1);
    if j != i1 { Distinct(h, s, j, i1); }
    if j1 != i { Distinct(h, s, j1, i); }
  }

  lemma GuestLink(m: Mem, n: Mem, h: int, s: seq<int>, b: int, t: seq<int>, i: nat, j: nat)
    requires Ring(m, NODE, b, t) && Separate(h, s, b, t) && i <= |s| && j < |t|
    requires SameExcept(m, n, {At(h, s, i) + 4, At(h, s, i + 1), b, At(b, t, |t|) + 4})
    ensures Rd(n, At(b, t, j) + 4) == At(b, t, j + 1) && Rd(n, At(b, t, j + 1)) == At(b, t, j)
  {
    assert Link(m, NODE, b, t, j);
    var i1 := if i == |s| then 0 else i + 1;
    assert At(h, s, i1) == At(h, s, i + 1) && At(b, t, 0) == b;
    assert Apart(At(h, s, i), At(b, t, j)) && Apart(At(h, s, i1), At(b, t, j)) && Apart(At(h, s, i), At(b, t, j + 1)) && Apart(At(h, s, i1), At(b, t, j + 1));
    Distinct(b, t, j, |t|);
    Distinct(b, t, j + 1, 0);
    if j > 0 { Distinct(b, t, j, 0); }
    if j + 1 < |t| { Distinct(b, t, j + 1, |t|); }
  }

  lemma AtJoin(h: int, s: seq<int>, b: int, t: seq<int>, i: nat, k: nat)
    requires i <= |s| && k <= |s| + |t| + 2
    ensures At(h, s[..i] + ([b] + t) + s[i..], k) == if k <= i then At(h, s, k) else if k <= i + 1 + |t| then At(b, t, k - i - 1) else At(h, s, k - 1 - |t|)
  {
  }

  /** Rewiring the i-th link of a ring through another ring inserts that ring's nodes there. */
  lemma JoinIsRing(m: Mem, n: Mem, h: int, s: seq<int>, b: int, t: seq<int>, i: nat)
    requires Ring(m, NODE, h, s) && Ring(m, NODE, b, t) && Separate(h, s, b, t) && i <= |s|
    requires var x, y, last := At(h, s, i), At(h, s, i + 1), At(b, t, |t|);
             && SameExcept(m, n, {x + 4, y, b, last + 4})
             && Rd(n, x + 4) == b && Rd(n, b) == x && Rd(n, last + 4) == y && Rd(n, y) == last
    ensures Ring(n, NODE, h, s[..i] + ([b] + t) + s[i..])
  {
    var r := s[..i] + ([b] + t) + s[i..];
    forall k, j | 0 <= k < j <= |r| ensures ApartAt(h, r, k, j) {
      JoinApart(m, h, s, b, t, i, k, j);
    }
    forall k | 0 <= k <= |r| ensures Link(n, NODE, h, r, k) {
      AtJoin(h, s, b, t, i, k);
      AtJoin(h, s, b, t, i, k + 1);
      if k < i {
        HostLink(m, n, h, s, b, t, i, k);
      } else if i < k <= i + |t| {
        GuestLink(m, n, h, s, b, t, i, k - i - 1);
      } else if k > i + |t| + 1 {
        HostLink(m, n, h, s, b, t, i, k - 1 - |t|);
      }
    }
  }

  lemma JoinApart(m: Mem, h: int, s: seq<int>, b: int, t: seq<int>, i: nat, k: nat, j: nat)
    requires Ring(m, NODE, h, s) && Ring(m, NODE, b, t) && Separate(h, s, b, t) && i <= |s| && k < j <= |s| + |t| + 1
    ensures ApartAt(h, s[..i] + ([b] + t) + s[i..], k, j)
  {
    AtJoin(h, s, b, t, i, k);
    AtJoin(h, s, b, t, i, j);
    var kt, jt := i < k <= i + 1 + |t|, i < j <= i + 1 + |t|;
    var ks, js := if k <= i then k else k - 1 - |t|, if j <= i then j else j - 1 - |t|;
    if kt && jt {
      Distinct(b, t, k - i - 1, j - i - 1);
    } else if kt {
      assert Apart(At(h, s, js), At(b, t, k - i - 1));
    } else if jt {
      assert Apart(At(h, s, ks), At(b, t, j - i - 1));
    } else {
      Distinct(h, s, ks, js);
    }
  }

  /** list_splice: the sub list comes first. */
  method ListSplice(m: Mem, head: int, sub: int, ghost s: seq<int>, ghost t: seq<int>) returns (n: Mem)
    requires Ring(m, NODE, head, s) && Ring(m, NODE, sub, t) && Separate(head, s, sub, t)
    ensures Ring(n, NODE, head, [sub] + t + s)
  {
    JoinSetup(m, head, s, sub, t, 0);
    var last := Rd(m, sub);
    n := m[last + 4 := Rd(m, head + 4)];
    n := n[Rd(n, head + 4) := last];
    n := n[head + 4 := sub];
    n := n[sub := head];
    JoinIsRing(m, n, head, s, sub, t, 0);
    assert s[..0] + ([sub] + t) + s[0..] == [sub] + t + s;
  }

  /** list_splice_tail: the sub list comes last. */
  method ListSpliceTail(m: Mem, head: int, sub: int, ghost s: seq<int>, ghost t: seq<int>) returns (n: Mem)
    requires Ring(m, NODE, head, s) && Ring(m, NODE, sub, t) && Separate(head, s, sub, t)
    ensures Ring(n, NODE, head, s + ([sub] + t))
  {
    JoinSetup(m, head, s, sub, t, |s|);
    var last := Rd(m, sub);
    n := m[Rd(m, head) + 4 := sub];
    n := n[sub := Rd(n, head)];
    n := n[last + 4 := head];
    n := n[head := last];
    JoinIsRing(m, n, head, s, sub, t, |s|);
    assert s[..|s|] + ([sub] + t) + s[|s|..] == s + ([sub] + t);
  }

  /** What the words at the join hold, and that they are four different words. */
  lemma JoinSetup(m: Mem, h: int, s: seq<int>, b: int, t: seq<int>, i: nat)
    requires Ring(m, NODE, h, s) && Ring(m, NODE, b, t) && Separate(h, s, b, t) && i <= |s|
    ensures var x, y, last := At(h, s, i), At(h, s, i + 1), At(b, t, |t|);
            && Rd(m, x + 4) == y && Rd(m, y) == x && Rd(m, b) == last && Rd(m, last + 4) == b
            && Apart(x, b) && Apart(x, last) && Apart(y, b) && Apart(y, last)
            && (x == y || Apart(x, y)) && (b == last || Apart(b, last))
  {
    assert Link(m, NODE, h, s, i) && Link(m, NODE, b, t, |t|);
    var i1 := if i == |s| then 0 else i + 1;
    assert At(h, s, i1) == At(h, s, i + 1) && At(b, t, 0) == b;
    assert Apart(At(h, s, i), At(b, t, 0)) && Apart(At(h, s, i), At(b, t, |t|)) && Apart(At(h, s, i1), At(b, t, 0)) && Apart(At(h, s, i1), At(b, t, |t|));
    if i != i1 { Distinct(h, s, i, i1); }
    if t != [] { Distinct(b, t, 0, |t|); }
  }

  /** Splicing back what was cut restores the list. */
  method CutThenSplice(m: Mem, head: int, where: int, ghost s: seq<int>, ghost k: nat) returns (n: Mem)
    requires Ring(m, NODE, head, s) && s != [] && k <= |s| && where == At(head, s, k + 1)
    ensures Ring(n, NODE, head, s)
  {
    var sub;
    ghost var c := CutCount(s, k);
    n, sub := ListCut(m, head, where, s, k);
    n := ListSplice(n, head, sub, s[c..], s[1..c]);
    assert [s[0]] + s[1..c] + s[c..] == s;
  }
}
