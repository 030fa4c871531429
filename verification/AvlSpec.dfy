/** AVL trees (Kernel/avltree.c) as values: search order, stored heights, balance, contents. */
module AvlSpec {
  datatype Tree = Nil | Node(key: int, payload: int, height: int, left: Tree, right: Tree)

  function Height(t: Tree): int {
    if t.Nil? then -1 else t.height
  }

  function Max(a: int, b: int): int {
    if a > b then a else b
  }

  /** A node whose stored height is computed from its children. */
  function Mk(key: int, payload: int, left: Tree, right: Tree): Tree {
    Node(key, payload, Max(Height(left), Height(right)) + 1, left, right)
  }

  function RotateLeft(t: Tree): Tree
    requires t.Node? && t.left.Node?
  {
    Mk(t.left.key, t.left.payload, t.left.left, Mk(t.key, t.payload, t.left.right, t.right))
  }

  function RotateRight(t: Tree): Tree
    requires t.Node? && t.right.Node?
  {
    Mk(t.right.key, t.right.payload, Mk(t.key, t.payload, t.left, t.right.left), t.right.right)
  }

  function DoubleLeft(t: Tree): Tree
    requires t.Node? && t.left.Node? && t.left.right.Node?
  {
    RotateLeft(t.(left := RotateRight(t.left)))
  }

  function DoubleRight(t: Tree): Tree
    requires t.Node? && t.right.Node? && t.right.left.Node?
  {
    RotateRight(t.(right := RotateLeft(t.right)))
  }

  // ----- What a tree must be -----

  ghost function Contents(t: Tree): map<int, int> {
    if t.Nil? then map[] else (Contents(t.left) + Contents(t.right))[t.key := t.payload]
  }

  ghost predicate Ordered(t: Tree) {
    t.Node? ==>
      && (forall k :: k in Contents(t.left) ==> k < t.key) && (forall k :: k in Contents(t.right) ==> t.key < k)
      && Ordered(t.left) && Ordered(t.right)
  }

  /** Stored heights are exact and siblings differ by at most one level. */
  ghost predicate Balanced(t: Tree) {
    t.Node? ==>
      && t.height == Max(Height(t.left), Height(t.right)) + 1 && -1 <= Height(t.left) - Height(t.right) <= 1
      && Balanced(t.left) && Balanced(t.right)
  }

  ghost predicate Avl(t: Tree) {
    Ordered(t) && Balanced(t)
  }

  lemma {:induction false} HeightAtLeast(t: Tree)
    requires Balanced(t)
    ensures Height(t) >= -1 && (Height(t) == -1 <==> t.Nil?)
  {
    if t.Node? {
      HeightAtLeast(t.left);
      HeightAtLeast(t.right);
    }
  }

  // ----- Insertion -----

  /** avl_insert on values: rebalance after inserting on the left, or on the right. */
  function JoinLeft(t: Tree, v: int): Tree
    requires t.Node?
  {
    if Height(t.left) - Height(t.right) == 2 && t.left.Node? then
      if v < t.left.key then RotateLeft(t)
      else if t.left.right.Node? then DoubleLeft(t)
      else t
    else Mk(t.key, t.payload, t.left, t.right)
  }

  function JoinRight(t: Tree, v: int): Tree
    requires t.Node?
  {
    if Height(t.right) - Height(t.left) == 2 && t.right.Node? then
      if v > t.right.key then RotateRight(t)
      else if t.right.left.Node? then DoubleRight(t)
      else t
    else Mk(t.key, t.payload, t.left, t.right)
  }

  /** The nodes a rotation reads and rewrites are there. */
  ghost predicate FixableLeft(t: Tree, v: int) {
    t.Node? && (Height(t.left) - Height(t.right) == 2 ==> t.left.Node? && (v >= t.left.key ==> t.left.right.Node?))
  }

  ghost predicate FixableRight(t: Tree, v: int) {
    t.Node? && (Height(t.right) - Height(t.left) == 2 ==> t.right.Node? && (v <= t.right.key ==> t.right.left.Node?))
  }

  function Insert(t: Tree, v: int, payload: int): Tree {
    if t.Nil? then Mk(v, payload, Nil, Nil)
    else if v < t.key then JoinLeft(t.(left := Insert(t.left, v, payload)), v)
    else if v > t.key then JoinRight(t.(right := Insert(t.right, v, payload)), v)
    else Mk(t.key, t.payload, t.left, t.right)
  }

  /** When inserting v into t made the tree r one level taller, r still has the root of t and the side v
      went to is the taller one. */
  ghost predicate Grew(t: Tree, r: Tree, v: int) {
    && Height(t) <= Height(r) <= Height(t) + 1 && r.Node?
    && (t.Node? && Height(r) == Height(t) + 1 ==>
          if v < r.key then Height(r.left) == Height(r.right) + 1 else v > r.key && Height(r.right) == Height(r.left) + 1)
  }

  lemma {:induction false} InsertBalanced(t: Tree, v: int, payload: int)
    requires Balanced(t)
    ensures Balanced(Insert(t, v, payload)) && Grew(t, Insert(t, v, payload), v)
  {
    HeightAtLeast(t);
    if t.Node? {
      HeightAtLeast(t.left);
      HeightAtLeast(t.right);
      if v < t.key {
        InsertBalanced(t.left, v, payload);
        LeftBalanced(t, Insert(t.left, v, payload), v);
      } else if v > t.key {
        InsertBalanced(t.right, v, payload);
        RightBalanced(t, Insert(t.right, v, payload), v);
      }
    }
  }

  lemma LeftBalanced(t: Tree, l: Tree, v: int)
    requires t.Node? && Balanced(t) && Balanced(l) && Grew(t.left, l, v) && v < t.key
    ensures Balanced(JoinLeft(t.(left := l), v)) && Grew(t, JoinLeft(t.(left := l), v), v)
    ensures FixableLeft(t.(left := l), v)
  {
    HeightAtLeast(t.left);
    HeightAtLeast(t.right);
    HeightAtLeast(l.left);
    HeightAtLeast(l.right);
    if l.right.Node? { HeightAtLeast(l.right.left); HeightAtLeast(l.right.right); }
  }

  lemma RightBalanced(t: Tree, r: Tree, v: int)
    requires t.Node? && Balanced(t) && Balanced(r) && Grew(t.right, r, v) && v > t.key
    ensures Balanced(JoinRight(t.(right := r), v)) && Grew(t, JoinRight(t.(right := r), v), v)
    ensures FixableRight(t.(right := r), v)
  {
    HeightAtLeast(t.left);
    HeightAtLeast(t.right);
    HeightAtLeast(r.left);
    HeightAtLeast(r.right);
    if r.left.Node? { HeightAtLeast(r.left.left); HeightAtLeast(r.left.right); }
  }

  // ----- Order and contents -----

  lemma MkOrdered(key: int, payload: int, l: Tree, r: Tree)
    requires Ordered(l) && Ordered(r) && (forall k :: k in Contents(l) ==> k < key) && (forall k :: k in Contents(r) ==> key < k)
    ensures Ordered(Mk(key, payload, l, r)) && Contents(Mk(key, payload, l, r)) == (Contents(l) + Contents(r))[key := payload]
  {
  }

  /** Hanging the middle subtree b on either side gives the same contents. */
  lemma SameContents(a: map<int, int>, b: map<int, int>, c: map<int, int>, l: int, pl: int, k: int, pk: int)
    requires l != k && l !in c
    ensures ((a + b)[l := pl] + c)[k := pk] == (a + (b + c)[k := pk])[l := pl]
  {
  }

  /** Two levels of an ordered tree in order: x, l, y, k, z. */
  ghost predicate InOrder(x: Tree, l: int, y: Tree, k: int, z: Tree) {
    && Ordered(x) && Ordered(y) && Ordered(z) && l < k
    && (forall i :: i in Contents(x) ==> i < l) && (forall i :: i in Contents(y) ==> l < i < k) && (forall i :: i in Contents(z) ==> k < i)
  }

  lemma EitherWay(x: Tree, l: int, pl: int, y: Tree, k: int, pk: int, z: Tree)
    requires InOrder(x, l, y, k, z)
    ensures var s, t := Mk(k, pk, Mk(l, pl, x, y), z), Mk(l, pl, x, Mk(k, pk, y, z));
            Ordered(s) && Ordered(t) && Contents(s) == Contents(t)
  {
    MkOrdered(l, pl, x, y);
    MkOrdered(k, pk, Mk(l, pl, x, y), z);
    MkOrdered(k, pk, y, z);
    MkOrdered(l, pl, x, Mk(k, pk, y, z));
    SameContents(Contents(x), Contents(y), Contents(z), l, pl, k, pk);
  }

  lemma LeftInOrder(t: Tree)
    requires t.Node? && t.left.Node? && Ordered(t)
    ensures InOrder(t.left.left, t.left.key, t.left.right, t.key, t.right)
  {
    var c := Contents(t.left);
    assert t.left.key in c && (forall i :: i in Contents(t.left.left) || i in Contents(t.left.right) ==> i in c);
  }

  lemma RightInOrder(t: Tree)
    requires t.Node? && t.right.Node? && Ordered(t)
    ensures InOrder(t.left, t.key, t.right.left, t.right.key, t.right.right)
  {
    var c := Contents(t.right);
    assert t.right.key in c && (forall i :: i in Contents(t.right.left) || i in Contents(t.right.right) ==> i in c);
  }

  /** Stored heights play no part in order and contents. */
  lemma Rebuilt(t: Tree, l: Tree, r: Tree)
    requires t.Node? && Contents(l) == Contents(t.left) && Contents(r) == Contents(t.right)
    ensures Contents(Mk(t.key, t.payload, l, r)) == Contents(t)
  {
  }

  lemma RotateLeftOrdered(t: Tree)
    requires t.Node? && t.left.Node? && Ordered(t)
    ensures Ordered(RotateLeft(t)) && Contents(RotateLeft(t)) == Contents(t)
  {
    var l := t.left;
    LeftInOrder(t);
    EitherWay(l.left, l.key, l.payload, l.right, t.key, t.payload, t.right);
    Rebuilt(l, l.left, l.right);
    Rebuilt(t, Mk(l.key, l.payload, l.left, l.right), t.right);
  }

  lemma RotateRightOrdered(t: Tree)
    requires t.Node? && t.right.Node? && Ordered(t)
    ensures Ordered(RotateRight(t)) && Contents(RotateRight(t)) == Contents(t)
  {
    var r := t.right;
    RightInOrder(t);
    EitherWay(t.left, t.key, t.payload, r.left, r.key, r.payload, r.right);
    Rebuilt(r, r.left, r.right);
    Rebuilt(t, t.left, Mk(r.key, r.payload, r.left, r.right));
  }

  lemma DoubleLeftOrdered(t: Tree)
    requires t.Node? && t.left.Node? && t.left.right.Node? && Ordered(t)
    ensures Ordered(DoubleLeft(t)) && Contents(DoubleLeft(t)) == Contents(t)
  {
    RotateRightOrdered(t.left);
    RotateLeftOrdered(t.(left := RotateRight(t.left)));
  }

  lemma DoubleRightOrdered(t: Tree)
    requires t.Node? && t.right.Node? && t.right.left.Node? && Ordered(t)
    ensures Ordered(DoubleRight(t)) && Contents(DoubleRight(t)) == Contents(t)
  {
    RotateLeftOrdered(t.right);
    RotateRightOrdered(t.(right := RotateLeft(t.right)));
  }

  lemma JoinLeftOrdered(t: Tree, v: int)
    requires t.Node? && Ordered(t)
    ensures Ordered(JoinLeft(t, v)) && Contents(JoinLeft(t, v)) == Contents(t)
  {
    MkOrdered(t.key, t.payload, t.left, t.right);
    if t.left.Node? {
      RotateLeftOrdered(t);
      if t.left.right.Node? { DoubleLeftOrdered(t); }
    }
  }

  lemma JoinRightOrdered(t: Tree, v: int)
    requires t.Node? && Ordered(t)
    ensures Ordered(JoinRight(t, v)) && Contents(JoinRight(t, v)) == Contents(t)
  {
    MkOrdered(t.key, t.payload, t.left, t.right);
    if t.right.Node? {
      RotateRightOrdered(t);
      if t.right.left.Node? { DoubleRightOrdered(t); }
    }
  }

  /** Insertion adds exactly the new key; a key already there keeps its payload. */
  lemma {:induction false} InsertContents(t: Tree, v: int, payload: int)
    requires Ordered(t)
    ensures Ordered(Insert(t, v, payload))
    ensures Contents(Insert(t, v, payload)) == Added(Contents(t), v, payload)
  {
    if t.Node? {
      if v < t.key {
        InsertContents(t.left, v, payload);
        LeftSide(t, Insert(t.left, v, payload), v, payload);
        JoinLeftOrdered(t.(left := Insert(t.left, v, payload)), v);
      } else if v > t.key {
        InsertContents(t.right, v, payload);
        RightSide(t, Insert(t.right, v, payload), v, payload);
        JoinRightOrdered(t.(right := Insert(t.right, v, payload)), v);
      }
    }
  }

  ghost function Added(c: map<int, int>, v: int, payload: int): map<int, int> {
    if v in c then c else c[v := payload]
  }

  /** Adding v to one subtree, on its side of the root, adds it to the tree. */
  lemma AddedLeft(a: map<int, int>, b: map<int, int>, k: int, pk: int, v: int, payload: int)
    requires v != k && v !in b
    ensures (Added(a, v, payload) + b)[k := pk] == Added((a + b)[k := pk], v, payload)
  {
  }

  lemma AddedRight(a: map<int, int>, b: map<int, int>, k: int, pk: int, v: int, payload: int)
    requires v != k && v !in a
    ensures (a + Added(b, v, payload))[k := pk] == Added((a + b)[k := pk], v, payload)
  {
  }

  lemma LeftSide(t: Tree, l: Tree, v: int, payload: int)
    requires t.Node? && Ordered(t) && Ordered(l) && v < t.key && Contents(l) == Added(Contents(t.left), v, payload)
    ensures var u := t.(left := l); Ordered(u) && Contents(u) == Added(Contents(t), v, payload)
  {
    AddedLeft(Contents(t.left), Contents(t.right), t.key, t.payload, v, payload);
  }

  lemma RightSide(t: Tree, r: Tree, v: int, payload: int)
    requires t.Node? && Ordered(t) && Ordered(r) && v > t.key && Contents(r) == Added(Contents(t.right), v, payload)
    ensures var u := t.(right := r); Ordered(u) && Contents(u) == Added(Contents(t), v, payload)
  {
    AddedRight(Contents(t.left), Contents(t.right), t.key, t.payload, v, payload);
  }

  lemma InsertKeepsAvl(t: Tree, v: int, payload: int)
    requires Avl(t)
    ensures Avl(Insert(t, v, payload))
  {
    InsertBalanced(t, v, payload);
    InsertContents(t, v, payload);
  }

  // ----- Lookup -----

  /** avl_find: the subtree whose root holds v. */
  function Find(v: int, t: Tree): Tree {
    if t.Nil? then Nil
    else if v > t.key then Find(v, t.right)
    else if v < t.key then Find(v, t.left)
    else t
  }

  /** Lookup agrees with the contents. */
  lemma {:induction false} FindAgrees(v: int, t: Tree)
    requires Ordered(t)
    ensures Find(v, t).Node? <==> v in Contents(t)
    ensures Find(v, t).Node? ==> Find(v, t).key == v && Find(v, t).payload == Contents(t)[v]
  {
    if t.Node? {
      FindAgrees(v, t.left);
      FindAgrees(v, t.right);
      assert v in Contents(t) <==> v == t.key || v in Contents(t.left) || v in Contents(t.right);
    }
  }

  // ----- Logarithmic height -----

  function Size(t: Tree): nat {
    if t.Nil? then 0 else 1 + Size(t.left) + Size(t.right)
  }

  function Fib(n: nat): nat {
    if n < 2 then n else Fib(n - 1) + Fib(n - 2)
  }

  lemma {:induction false} FibMono(m: nat, n: nat)
    requires m <= n
    ensures Fib(m) <= Fib(n)
    decreases n - m
  {
    if m < n { FibMono(m + 1, n); }
  }

  /** A balanced tree of height h (a single node has height 0) has at least Fib(h + 3) - 1 nodes. */
  lemma {:induction false} EnoughNodes(t: Tree)
    requires Balanced(t)
    ensures Height(t) >= -1 && Size(t) >= Fib(Height(t) + 3) - 1
  {
    HeightAtLeast(t);
    if t.Node? {
      EnoughNodes(t.left);
      EnoughNodes(t.right);
      var h := Height(t);
      FibMono(h + 1, Height(t.left) + 3);
      FibMono(h + 1, Height(t.right) + 3);
      assert Fib(h + 3) == Fib(h + 2) + Fib(h + 1);
    }
  }
}
