/** Include/list.h: the kernel's circular doubly linked lists, proved over a whole family of lists
    sharing one memory. */
module Lists {
  import opened Words
  import opened Rings
  import opened Seqs

  /** struct linked_list { prev; next }. */
  const NODE := Layout(4, 0)

  type Queues = map<int, seq<int>>

  ghost predicate Aligned(x: int) {
    x % 8 == 0
  }

  /** q gives, for each list head, the nodes on its list in order. Every list is well formed and no
      node is a head or on two lists, or twice on one. */
  ghost predicate Family(m: Mem, q: Queues) {
    && (forall h :: h in q ==> Aligned(h) && Ring(m, NODE, h, q[h]))
    && (forall h, x :: h in q && x in q[h] ==> Aligned(x) && x !in q)
    && (forall h, g, x :: h in q && g in q && x in q[h] && x in q[g] ==> h == g)
  }

  /** x is an aligned node that is neither a head nor on any list. */
  ghost predicate Loose(q: Queues, x: int) {
    Aligned(x) && x !in q && forall h :: h in q ==> x !in q[h]
  }

  lemma AlignedApart(x: int, y: int)
    requires Aligned(x) && Aligned(y) && x != y
    ensures Apart(x, y)
  {
  }

  /** A list other than h is not affected by writes to link words of h, of its nodes and of loose nodes. */
  lemma OtherList(m: Mem, m': Mem, q: Queues, h: int, g: int, touched: set<int>)
    requires Family(m, q) && h in q && g in q && g != h
    requires SameExcept(m, m', touched)
    requires forall w :: w in touched ==> exists x :: w in Links(NODE, x) && (x == h || x in q[h] || Loose(q, x))
    ensures Ring(m', NODE, g, q[g])
  {
    forall y | y == g || y in q[g] ensures y !in touched && y + 4 !in touched {
      forall x | x == h || x in q[h] || Loose(q, x) ensures y !in Links(NODE, x) && y + 4 !in Links(NODE, x) {
        AlignedApart(x, y);
      }
    }
    RingFrame(m, m', NODE, g, q[g]);
  }

  /** Replacing the contents of one list keeps the family, given the other lists are untouched. */
  lemma FamilyUpdate(m: Mem, m': Mem, q: Queues, h: int, s: seq<int>, touched: set<int>)
    requires Family(m, q) && h in q && Ring(m', NODE, h, s)
    requires forall x :: x in s ==> x in q[h] || Loose(q, x)
    requires SameExcept(m, m', touched)
    requires forall w :: w in touched ==> exists x :: w in Links(NODE, x) && (x == h || x in q[h] || Loose(q, x))
    ensures Family(m', q[h := s])
  {
    forall g | g in q && g != h ensures Ring(m', NODE, g, q[g]) { OtherList(m, m', q, h, g, touched); }
  }

  lemma AtOn(h: int, s: seq<int>, i: int)
    ensures At(h, s, i) == h || At(h, s, i) in s
  {
  }

  /** list_is_empty: the head points at itself exactly when its list is empty. */
  lemma EmptyRing(m: Mem, h: int, s: seq<int>)
    requires Ring(m, NODE, h, s)
    ensures Rd(m, h + 4) == h <==> s == []
  {
    assert Link(m, NODE, h, s, 0);
    if |s| > 0 { Distinct(h, s, 0, 1); }
  }

  /** e was spliced in between the k-th node of the turn around h and the next one. */
  lemma Inserted(m: Mem, m': Mem, q: Queues, h: int, k: nat, e: int)
    requires Family(m, q) && h in q && Loose(q, e) && k <= |q[h]|
    requires var a, b := At(h, q[h], k), At(h, q[h], k + 1);
             && Rd(m', a + 4) == e && Rd(m', e) == a && Rd(m', e + 4) == b && Rd(m', b) == e
             && SameExcept(m, m', {a + 4, b, e, e + 4})
    ensures Family(m', q[h := InsertAt(q[h], k, e)])
  {
    var s := q[h];
    var a, b := At(h, s, k), At(h, s, k + 1);
    AtOn(h, s, k);
    AtOn(h, s, k + 1);
    forall x | x == h || x in s ensures Apart(x, e) { AlignedApart(x, e); }
    RingInsert(m, m', NODE, h, s, k, e);
    assert a + 4 in Links(NODE, a) && b in Links(NODE, b) && e in Links(NODE, e) && e + 4 in Links(NODE, e);
    FamilyUpdate(m, m', q, h, InsertAt(s, k, e), {a + 4, b, e, e + 4});
  }

  /** The four stores of list_add, whatever the lists look like. */
  function AddWords(m: Mem, head: int, entry: int): Mem {
    var m1 := m[entry + 4 := Rd(m, head + 4)];
    var m2 := m1[Rd(m1, head + 4) := entry];
    m2[head + 4 := entry][entry := head]
  }

  /** The four stores of list_del. */
  function DelWords(m: Mem, entry: int): Mem {
    var m1 := m[Rd(m, entry) + 4 := Rd(m, entry + 4)];
    var m2 := m1[Rd(m1, entry + 4) := Rd(m1, entry)];
    m2[entry + 4 := entry][entry := entry]
  }

  method ListAdd(m: Mem, head: int, entry: int, ghost q: Queues) returns (m': Mem)
    requires Family(m, q) && head in q && Loose(q, entry)
    ensures Family(m', q[head := [entry] + q[head]]) && m' == AddWords(m, head, entry)
  {
    ghost var s := q[head];
    assert Link(m, NODE, head, s, 0);
    AtOn(head, s, 1);
    AlignedApart(head, entry);
    AlignedApart(Rd(m, head + 4), entry);
    m' := m[entry + 4 := Rd(m, head + 4)];
    m' := m'[Rd(m', head + 4) := entry];
    m' := m'[head + 4 := entry];
    m' := m'[entry := head];
    Inserted(m, m', q, head, 0, entry);
    assert InsertAt(s, 0, entry) == [entry] + s;
  }

  method ListAddTail(m: Mem, head: int, entry: int, ghost q: Queues) returns (m': Mem)
    requires Family(m, q) && head in q && Loose(q, entry)
    ensures Family(m', q[head := q[head] + [entry]])
  {
    ghost var s := q[head];
    assert Link(m, NODE, head, s, |s|);
    AtOn(head, s, |s|);
    AlignedApart(head, entry);
    AlignedApart(Rd(m, head), entry);
    m' := m[Rd(m, head) + 4 := entry];
    m' := m'[entry + 4 := head];
    m' := m'[entry := Rd(m', head)];
    m' := m'[head := entry];
    Inserted(m, m', q, head, |s|, entry);
    assert InsertAt(s, |s|, entry) == s + [entry];
  }

  /** The list holding the k-th node of h, without it. */
  ghost function Dropped(q: Queues, h: int, k: nat): Queues
    requires h in q && k < |q[h]|
  {
    q[h := RemoveAt(q[h], k)]
  }

  /** Unlink a node and leave it pointing at itself. */
  method ListDel(m: Mem, entry: int, ghost q: Queues, ghost h: int, ghost k: nat) returns (m': Mem)
    requires Family(m, q) && h in q && k < |q[h]| && q[h][k] == entry
    ensures Family(m', Dropped(q, h, k)) && Loose(Dropped(q, h, k), entry)
    ensures Rd(m', entry) == entry && Rd(m', entry + 4) == entry && m' == DelWords(m, entry)
  {
    m' := m[Rd(m, entry) + 4 := Rd(m, entry + 4)];
    m' := m'[Rd(m', entry + 4) := Rd(m', entry)];
    m' := m'[entry + 4 := entry];
    m' := m'[entry := entry];
    Deleted(m, q, h, k, entry);
  }

  lemma Deleted(m: Mem, q: Queues, h: int, k: nat, entry: int)
    requires Family(m, q) && h in q && k < |q[h]| && q[h][k] == entry
    ensures Family(DelWords(m, entry), Dropped(q, h, k)) && Loose(Dropped(q, h, k), entry)
    ensures var a, b := At(h, q[h], k), At(h, q[h], k + 2);
            && Rd(DelWords(m, entry), a + 4) == b && Rd(DelWords(m, entry), b) == a
            && SameExcept(m, DelWords(m, entry), {a + 4, b, entry, entry + 4})
  {
    var s, m' := q[h], DelWords(m, entry);
    var a, b := At(h, s, k), At(h, s, k + 2);
    DeletedWords(m, q, h, k, entry, a, b);
    RingRemove(m, m', NODE, h, s, k);
    assert a + 4 in Links(NODE, a) && b in Links(NODE, b) && entry in Links(NODE, entry) && entry + 4 in Links(NODE, entry);
    AtOn(h, s, k);
    AtOn(h, s, k + 2);
    FamilyUpdate(m, m', q, h, RemoveAt(s, k), {a + 4, b, entry, entry + 4});
    RemovedGone(h, s, k);
  }

  lemma DeletedWords(m: Mem, q: Queues, h: int, k: nat, entry: int, a: int, b: int)
    requires Family(m, q) && h in q && k < |q[h]| && q[h][k] == entry && a == At(h, q[h], k) && b == At(h, q[h], k + 2)
    ensures var m' := DelWords(m, entry);
            Rd(m', a + 4) == b && Rd(m', b) == a && SameExcept(m, m', {a + 4, b, entry, entry + 4})
  {
    var s := q[h];
    assert Link(m, NODE, h, s, k) && Link(m, NODE, h, s, k + 1);
    AtOn(h, s, k);
    AtOn(h, s, k + 2);
    NeighboursDiffer(h, s, k);
    AlignedApart(a, entry);
    AlignedApart(b, entry);
    if a != b { AlignedApart(a, b); }
  }

  lemma NeighboursDiffer(h: int, s: seq<int>, k: nat)
    requires Spaced(h, s) && k < |s|
    ensures At(h, s, k) != s[k] && At(h, s, k + 2) != s[k]
  {
    Distinct(h, s, k, k + 1);
    Distinct(h, s, k + 1, if k + 1 == |s| then 0 else k + 2);
  }

  lemma RemovedGone(h: int, s: seq<int>, k: nat)
    requires Spaced(h, s) && k < |s|
    ensures s[k] !in RemoveAt(s, k)
  {
    forall i | 0 <= i < |s| && i != k ensures s[i] != s[k] { Distinct(h, s, i + 1, k + 1); }
  }

  /** list_init: a fresh head starts an empty list. */
  method ListInit(m: Mem, head: int, ghost q: Queues) returns (m': Mem)
    requires Family(m, q) && Loose(q, head)
    ensures Family(m', q[head := []])
  {
    m' := m[head := head];
    m' := m'[head + 4 := head];
    assert Link(m', NODE, head, [], 0);
    forall g | g in q ensures Ring(m', NODE, g, q[g]) {
      forall y | y == g || y in q[g] ensures Rd(m', y) == Rd(m, y) && Rd(m', y + 4) == Rd(m, y + 4) { AlignedApart(y, head); }
      RingFrame(m, m', NODE, g, q[g]);
    }
  }

  method ListMoveHead(m: Mem, head: int, entry: int, ghost q: Queues, ghost h: int, ghost k: nat) returns (m': Mem)
    requires Family(m, q) && head in q && h in q && k < |q[h]| && q[h][k] == entry
    ensures var p := Dropped(q, h, k); Family(m', p[head := [entry] + p[head]])
  {
    m' := ListDel(m, entry, q, h, k);
    m' := ListAdd(m', head, entry, Dropped(q, h, k));
  }

  method ListMoveTail(m: Mem, head: int, entry: int, ghost q: Queues, ghost h: int, ghost k: nat) returns (m': Mem)
    requires Family(m, q) && head in q && h in q && k < |q[h]| && q[h][k] == entry
    ensures var p := Dropped(q, h, k); Family(m', p[head := p[head] + [entry]])
  {
    m' := ListDel(m, entry, q, h, k);
    m' := ListAddTail(m', head, entry, Dropped(q, h, k));
  }
}
