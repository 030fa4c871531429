/** The linked AVL tree of Kernel/avltree.c: rotations and insertion rewrite child and height fields in place. */
module Avl {
  import opened AvlSpec

  class AvlNode {
    var val: int
    var payload: int
    var height: int
    var left: AvlNode?
    var right: AvlNode?
    ghost var repr: set<AvlNode>   // this node and the nodes below it
    ghost var tree: Tree           // the tree they represent

    /** The nodes below this one form a tree: the two subtrees share no node. */
    ghost predicate Valid()
      reads this, repr
      decreases repr
    {
      && this in repr
      && (left != null ==> left in repr && left.repr < repr && left.Valid())
      && (right != null ==> right in repr && right.repr < repr && right.Valid())
      && this !in Span(left) && this !in Span(right) && Span(left) !! Span(right)
      && repr == {this} + Span(left) + Span(right)
      && tree == Node(val, payload, height, TreeOf(left), TreeOf(right))
    }

    constructor (val: int, payload: int)
      ensures Valid() && repr == {this} && tree == Mk(val, payload, Nil, Nil)
    {
      this.val, this.payload, this.height := val, payload, 0;
      left, right, repr, tree := null, null, {this}, Mk(val, payload, Nil, Nil);
    }
  }

  ghost function Span(p: AvlNode?): set<AvlNode>
    reads p
  {
    if p == null then {} else p.repr
  }

  ghost function TreeOf(p: AvlNode?): Tree
    reads p
  {
    if p == null then Nil else p.tree
  }

  ghost predicate IsTree(p: AvlNode?)
    reads p, Span(p)
  {
    p != null ==> p.Valid()
  }

  method HeightOf(p: AvlNode?) returns (h: int)
    requires IsTree(p)
    ensures h == Height(TreeOf(p))
  {
    if p == null { return -1; }
    return p.height;
  }

  /** p is the root of the tree t made of the nodes s. */
  ghost predicate Is(p: AvlNode?, s: set<AvlNode>, t: Tree)
    reads s
  {
    if p == null then s == {} && t == Nil else p in s && p.repr == s && p.tree == t && p.Valid()
  }

  lemma IsOpen(p: AvlNode)
    requires p.Valid()
    ensures Is(p, p.repr, p.tree)
    ensures Is(p.left, Span(p.left), TreeOf(p.left)) && Is(p.right, Span(p.right), TreeOf(p.right))
    ensures p.tree == Node(p.val, p.payload, p.height, TreeOf(p.left), TreeOf(p.right))
    ensures p.repr == {p} + Span(p.left) + Span(p.right)
    ensures p !in Span(p.left) && p !in Span(p.right) && Span(p.left) !! Span(p.right)
  {
  }

  lemma Hung(p: AvlNode, sl: set<AvlNode>, tl: Tree, sr: set<AvlNode>, tr: Tree)
    requires Is(p.left, sl, tl) && Is(p.right, sr, tr) && p !in sl && p !in sr && sl !! sr
    requires p.repr == {p} + sl + sr && p.tree == Node(p.val, p.payload, p.height, tl, tr)
    ensures p.Valid()
  {
    assert p.left != null ==> p.left.repr == sl && p.left.Valid() && p !in p.left.repr;
    assert p.right != null ==> p.right.repr == sr && p.right.Valid() && p !in p.right.repr;
    assert Span(p.left) == sl && Span(p.right) == sr;
  }

  /** p->left or p->right gets a new subtree; the height stays as stored. */
  method Replant(p: AvlNode, l: AvlNode?, r: AvlNode?, ghost sl: set<AvlNode>, ghost tl: Tree, ghost sr: set<AvlNode>, ghost tr: Tree)
    requires Is(l, sl, tl) && Is(r, sr, tr) && p !in sl && p !in sr && sl !! sr
    modifies p`left, p`right, p`repr, p`tree
    ensures Is(p, {p} + sl + sr, Node(p.val, p.payload, p.height, tl, tr))
    ensures p.left == l && p.right == r
  {
    p.left, p.right := l, r;
    p.repr, p.tree := {p} + sl + sr, Node(p.val, p.payload, p.height, tl, tr);
    assert Is(l, sl, tl) && Is(r, sr, tr);
    Hung(p, sl, tl, sr, tr);
  }

  /** p->height = Max(height(p->left), height(p->right)) + 1. */
  method SetHeight(p: AvlNode)
    requires p.Valid()
    modifies p`height, p`tree
    ensures p.Valid() && p.tree == Mk(p.val, p.payload, old(TreeOf(p.left)), old(TreeOf(p.right)))
    ensures old(p.tree) == Node(p.val, p.payload, old(p.height), old(TreeOf(p.left)), old(TreeOf(p.right)))
  {
    IsOpen(p);
    ghost var sl, tl, sr, tr := Span(p.left), TreeOf(p.left), Span(p.right), TreeOf(p.right);
    var hl := HeightOf(p.left);
    var hr := HeightOf(p.right);
    p.height, p.tree := Max(hl, hr) + 1, Mk(p.val, p.payload, tl, tr);
    assert Is(p.left, sl, tl) && Is(p.right, sr, tr);
    Hung(p, sl, tl, sr, tr);
  }

  /** p->left and p->right are l and r, then the height is recomputed. */
  method Hang(p: AvlNode, l: AvlNode?, r: AvlNode?, ghost sl: set<AvlNode>, ghost tl: Tree, ghost sr: set<AvlNode>, ghost tr: Tree)
    requires Is(l, sl, tl) && Is(r, sr, tr) && p !in sl && p !in sr && sl !! sr
    modifies p
    ensures Is(p, {p} + sl + sr, Mk(old(p.val), old(p.payload), tl, tr))
    ensures p.val == old(p.val) && p.payload == old(p.payload)
  {
    Replant(p, l, r, sl, tl, sr, tr);
    SetHeight(p);
  }

  /** Both writes of a rotation: x, y, z hang in that order below p1 and p. */
  method Turn(p: AvlNode, p1: AvlNode, x: AvlNode?, y: AvlNode?, z: AvlNode?, ghost s: seq<set<AvlNode>>, ghost t: seq<Tree>)
    requires |s| == |t| == 3 && Is(x, s[0], t[0]) && Is(y, s[1], t[1]) && Is(z, s[2], t[2])
    requires p != p1 && p !in s[0] + s[1] + s[2] && p1 !in s[0] + s[1] + s[2]
    requires s[0] !! s[1] && s[0] !! s[2] && s[1] !! s[2]
    modifies p, p1
    ensures Is(p1, {p1} + s[0] + ({p} + s[1] + s[2]), Mk(old(p1.val), old(p1.payload), t[0], Mk(old(p.val), old(p.payload), t[1], t[2])))
  {
    Hang(p, y, z, s[1], t[1], s[2], t[2]);
    assert Is(x, s[0], t[0]);
    Hang(p1, x, p, s[0], t[0], {p} + s[1] + s[2], Mk(p.val, p.payload, t[1], t[2]));
  }

  method TurnBack(p: AvlNode, p1: AvlNode, x: AvlNode?, y: AvlNode?, z: AvlNode?, ghost s: seq<set<AvlNode>>, ghost t: seq<Tree>)
    requires |s| == |t| == 3 && Is(x, s[0], t[0]) && Is(y, s[1], t[1]) && Is(z, s[2], t[2])
    requires p != p1 && p !in s[0] + s[1] + s[2] && p1 !in s[0] + s[1] + s[2]
    requires s[0] !! s[1] && s[0] !! s[2] && s[1] !! s[2]
    modifies p, p1
    ensures Is(p1, {p1} + ({p} + s[0] + s[1]) + s[2], Mk(old(p1.val), old(p1.payload), Mk(old(p.val), old(p.payload), t[0], t[1]), t[2]))
  {
    Hang(p, x, y, s[0], t[0], s[1], t[1]);
    assert Is(z, s[2], t[2]);
    Hang(p1, p, z, {p} + s[0] + s[1], Mk(p.val, p.payload, t[0], t[1]), s[2], t[2]);
  }

  method SingleRotateWithLeft(p: AvlNode) returns (p1: AvlNode)
    requires p.Valid() && p.left != null
    modifies p, p.left
    ensures p1 == old(p.left) && p1.Valid() && p1.repr == old(p.repr)
    ensures old(p.tree.left.Node?) && p1.tree == RotateLeft(old(p.tree))
  {
    p1 := p.left;
    IsOpen(p);
    IsOpen(p1);
    var x, y, z := p1.left, p1.right, p.right;
    Turn(p, p1, x, y, z, [Span(x), Span(y), Span(z)], [TreeOf(x), TreeOf(y), TreeOf(z)]);
  }

  method SingleRotateWithRight(p: AvlNode) returns (p1: AvlNode)
    requires p.Valid() && p.right != null
    modifies p, p.right
    ensures p1 == old(p.right) && p1.Valid() && p1.repr == old(p.repr)
    ensures old(p.tree.right.Node?) && p1.tree == RotateRight(old(p.tree))
  {
    p1 := p.right;
    IsOpen(p);
    IsOpen(p1);
    var x, y, z := p.left, p1.left, p1.right;
    TurnBack(p, p1, x, y, z, [Span(x), Span(y), Span(z)], [TreeOf(x), TreeOf(y), TreeOf(z)]);
  }

  method DoubleRotateWithLeft(p: AvlNode) returns (r: AvlNode)
    requires p.Valid() && p.left != null && p.left.right != null
    modifies p, p.left, p.left.right
    ensures r.Valid() && r.repr == old(p.repr)
    ensures old(p.tree.left.Node? && p.tree.left.right.Node?) && r.tree == DoubleLeft(old(p.tree))
  {
    IsOpen(p);
    IsOpen(p.left);
    ghost var s, t := Span(p.right), TreeOf(p.right);
    var l := SingleRotateWithRight(p.left);
    assert Is(p.right, s, t);
    Replant(p, l, p.right, l.repr, l.tree, s, t);
    r := SingleRotateWithLeft(p);
  }

  method DoubleRotateWithRight(p: AvlNode) returns (r: AvlNode)
    requires p.Valid() && p.right != null && p.right.left != null
    modifies p, p.right, p.right.left
    ensures r.Valid() && r.repr == old(p.repr)
    ensures old(p.tree.right.Node? && p.tree.right.left.Node?) && r.tree == DoubleRight(old(p.tree))
  {
    IsOpen(p);
    IsOpen(p.right);
    ghost var s, t := Span(p.left), TreeOf(p.left);
    var q := SingleRotateWithLeft(p.right);
    assert Is(p.left, s, t);
    Replant(p, p.left, q, s, t, q.repr, q.tree);
    r := SingleRotateWithRight(p);
  }

  /** The choice of rotation after an insertion on one side; the rotations find the nodes they follow. */
  method TurnLeft(val: int, p: AvlNode) returns (r: AvlNode)
    requires p.Valid() && p.tree.left.Node? && (!(val < p.tree.left.key) ==> p.tree.left.right.Node?)
    modifies p.repr
    ensures r.Valid() && r.repr == old(p.repr)
    ensures r.tree == old(if val < p.tree.left.key then RotateLeft(p.tree) else DoubleLeft(p.tree))
  {
    IsOpen(p);
    IsOpen(p.left);
    if val < p.left.val {
      r := SingleRotateWithLeft(p);
    } else {
      r := DoubleRotateWithLeft(p);
    }
  }

  method TurnRight(val: int, p: AvlNode) returns (r: AvlNode)
    requires p.Valid() && p.tree.right.Node? && (!(val > p.tree.right.key) ==> p.tree.right.left.Node?)
    modifies p.repr
    ensures r.Valid() && r.repr == old(p.repr)
    ensures r.tree == old(if val > p.tree.right.key then RotateRight(p.tree) else DoubleRight(p.tree))
  {
    IsOpen(p);
    IsOpen(p.right);
    if val > p.right.val {
      r := SingleRotateWithRight(p);
    } else {
      r := DoubleRotateWithRight(p);
    }
  }

  /** The rebalancing after an insertion on the left. */
  method FixLeft(val: int, p: AvlNode) returns (r: AvlNode)
    requires p.Valid() && FixableLeft(p.tree, val)
    modifies p.repr
    ensures r.Valid() && r.repr == old(p.repr) && r.tree == JoinLeft(old(p.tree), val)
  {
    IsOpen(p);
    r := p;
    var hl := HeightOf(p.left);
    var hr := HeightOf(p.right);
    if hl - hr == 2 {
      r := TurnLeft(val, p);
    }
    SetHeight(r);
  }

  method FixRight(val: int, p: AvlNode) returns (r: AvlNode)
    requires p.Valid() && FixableRight(p.tree, val)
    modifies p.repr
    ensures r.Valid() && r.repr == old(p.repr) && r.tree == JoinRight(old(p.tree), val)
  {
    IsOpen(p);
    r := p;
    var hl := HeightOf(p.left);
    var hr := HeightOf(p.right);
    if hr - hl == 2 {
      r := TurnRight(val, p);
    }
    SetHeight(r);
  }

  /** After an insertion below it, a balanced node can be rebalanced. */
  lemma FixableAfter(t: Tree, val: int, payload: int)
    requires Balanced(t) && t.Node?
    ensures val < t.key ==> Balanced(t.left) && FixableLeft(t.(left := Insert(t.left, val, payload)), val)
    ensures val > t.key ==> Balanced(t.right) && FixableRight(t.(right := Insert(t.right, val, payload)), val)
  {
    if val < t.key {
      InsertBalanced(t.left, val, payload);
      LeftBalanced(t, Insert(t.left, val, payload), val);
    } else if val > t.key {
      InsertBalanced(t.right, val, payload);
      RightBalanced(t, Insert(t.right, val, payload), val);
    }
  }

  method InsertLeft(val: int, payload: int, p: AvlNode) returns (r: AvlNode)
    requires p.Valid() && Balanced(p.tree) && val < p.val
    modifies p.repr
    ensures r.Valid() && old(p.repr) <= r.repr && fresh(r.repr - old(p.repr))
    ensures r.tree == Insert(old(p.tree), val, payload)
    decreases p.repr, 0
  {
    IsOpen(p);
    ghost var t, s, u := p.tree, Span(p.right), TreeOf(p.right);
    FixableAfter(t, val, payload);
    var l := AvlInsert(val, payload, p.left);
    assert Is(p.right, s, u);
    Replant(p, l, p.right, l.repr, l.tree, s, u);
    r := FixLeft(val, p);
  }

  method InsertRight(val: int, payload: int, p: AvlNode) returns (r: AvlNode)
    requires p.Valid() && Balanced(p.tree) && val > p.val
    modifies p.repr
    ensures r.Valid() && old(p.repr) <= r.repr && fresh(r.repr - old(p.repr))
    ensures r.tree == Insert(old(p.tree), val, payload)
    decreases p.repr, 0
  {
    IsOpen(p);
    ghost var t, s, u := p.tree, Span(p.left), TreeOf(p.left);
    FixableAfter(t, val, payload);
    var q := AvlInsert(val, payload, p.right);
    assert Is(p.left, s, u);
    Replant(p, p.left, q, s, u, q.repr, q.tree);
    r := FixRight(val, p);
  }

  /** avl_insert: the nodes of the old tree stay in it, and the whole computes Insert. */
  method AvlInsert(val: int, payload: int, root: AvlNode?) returns (p: AvlNode)
    requires IsTree(root) && Balanced(TreeOf(root))
    modifies Span(root)
    ensures p.Valid() && old(Span(root)) <= p.repr && fresh(p.repr - old(Span(root)))
    ensures p.tree == Insert(old(TreeOf(root)), val, payload)
    decreases Span(root), 1
  {
    if root == null {
      p := new AvlNode(val, payload);
    } else if val < root.val {
      p := InsertLeft(val, payload, root);
    } else if val > root.val {
      p := InsertRight(val, payload, root);
    } else {
      p := root;
      SetHeight(p);
    }
  }

  /** avl_find. */
  method AvlFind(val: int, p: AvlNode?) returns (r: AvlNode?)
    requires IsTree(p)
    ensures r == null <==> Find(val, TreeOf(p)).Nil?
    ensures r != null ==> r in Span(p) && r.val == val && r.tree == Find(val, TreeOf(p)) && r.payload == r.tree.payload
    decreases Span(p)
  {
    if p == null { return null; }
    if val > p.val {
      r := AvlFind(val, p.right);
    } else if val < p.val {
      r := AvlFind(val, p.left);
    } else {
      r := p;
    }
  }

  /** A table keyed by id, as the process and thread tables use the tree: a map whose depth stays logarithmic. */
  class Table {
    var root: AvlNode?
    ghost predicate Valid()
      reads this, root, Span(root)
    {
      IsTree(root) && AvlSpec.Avl(TreeOf(root))
    }

    ghost function Entries(): map<int, int>
      reads this, root
    {
      Contents(TreeOf(root))
    }

    constructor ()
      ensures Valid() && Entries() == map[]
    {
      root := null;
    }

    method Put(val: int, payload: int)
      requires Valid()
      modifies this, Span(root)
      ensures Valid()
      ensures Entries() == if val in old(Entries()) then old(Entries()) else old(Entries())[val := payload]
      ensures old(Span(root)) <= Span(root) && fresh(Span(root) - old(Span(root)))
    {
      InsertContents(TreeOf(root), val, payload);
      InsertBalanced(TreeOf(root), val, payload);
      root := AvlInsert(val, payload, root);
    }

    method Get(val: int) returns (payload: int, found: bool)
      requires Valid()
      ensures found == (val in Entries()) && (found ==> payload == Entries()[val])
    {
      FindAgrees(val, TreeOf(root));
      var n := AvlFind(val, root);
      if n == null { return 0, false; }
      return n.payload, true;
    }
  }
}
