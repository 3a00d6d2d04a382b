/**
The nodes of the tree in memory, and what it means for them to spell out a `Tree` value.

`Rep(t)` says that the cells named in `t` hold exactly what `t` says, are pairwise distinct, and
that every child points back to its parent.  `At(c, t, head)` says that the cells hold the whole
tree `Plug(c, t)`, seen from the subtree `t`.
*/
module AvlHeap {
  import opened AvlShape
  import opened AvlUpdate
  import PackedWord

  /** A `void *` key: the sentinel's is NULL, every stored one is not. */
  datatype KeyPtr<K> = Null | Key(value: K)

  /** One node.  Rank and balance factor share a word, read and written as the header's macros do. */
  class AvlNode<K> {
    var key: KeyPtr<K>
    var left: AvlNode?<K>
    var right: AvlNode?<K>
    var parent: AvlNode?<K>
    var rankAndBalance: PackedWord.Word

    constructor (key: KeyPtr<K>, parent: AvlNode?<K>)
      ensures this.key == key && this.parent == parent && left == null && right == null
      ensures Rank() == 1 && Balance() == 0
    {
      this.parent := parent;
      this.key := key;
      left := null;
      right := null;
      rankAndBalance := PackedWord.StoreRank(PackedWord.StoreBalance(0, 0), 1);
    }

    /** AVL_GET_RANK */
    function Rank(): Rank30
      reads this
    {
      PackedWord.GetRank(rankAndBalance)
    }

    /** AVL_GET_BALANCE */
    function Balance(): int
      reads this
    {
      PackedWord.GetBalance(rankAndBalance)
    }
  }

  type Shape<K> = Tree<AvlNode<K>, K>
  type Path<K> = Ctx<AvlNode<K>, K>

  ghost function Root<K>(t: Shape<K>): AvlNode?<K> {
    if t.Leaf? then null else t.ref
  }

  ghost predicate Rep<K>(t: Shape<K>)
    reads Cells(t)
  {
    t.Node? ==>
      && t.ref !in Cells(t.left) && t.ref !in Cells(t.right) && Cells(t.left) !! Cells(t.right)
      && Holds(t.ref, t.key, t.rank, t.bal)
      && t.ref.left == Root(t.left) && t.ref.right == Root(t.right)
      && Rep(t.left) && Rep(t.right)
      && (t.left.Node? ==> t.left.ref.parent == t.ref)
      && (t.right.Node? ==> t.right.ref.parent == t.ref)
  }

  ghost predicate Holds<K>(n: AvlNode<K>, k: K, rank: Rank30, bal: int)
    reads n
  {
    n.key == Key(k) && n.Rank() == rank && n.Balance() == bal
  }

  /** The node the hole hangs from. */
  ghost function Hole<K>(c: Path<K>, head: AvlNode<K>): AvlNode<K> {
    if c.Top? then head else c.ref
  }

  /** The cells of the context are as `c` says, with `x` in the hole. */
  ghost predicate RepPath<K>(c: Path<K>, x: AvlNode?<K>, head: AvlNode<K>)
    reads CtxCells(c), head
  {
    match c
    case Top => head.right == x
    case InLeft(up, n, k, rk, b, r) =>
      && n !in CtxCells(up) && n !in Cells(r) && Cells(r) !! CtxCells(up)
      && Holds(n, k, rk, b) && n.left == x && n.right == Root(r)
      && Rep(r) && (r.Node? ==> r.ref.parent == n)
      && n.parent == Hole(up, head) && RepPath(up, n, head)
    case InRight(up, l, n, k, rk, b) =>
      && n !in CtxCells(up) && n !in Cells(l) && Cells(l) !! CtxCells(up)
      && Holds(n, k, rk, b) && n.left == Root(l) && n.right == x
      && Rep(l) && (l.Node? ==> l.ref.parent == n)
      && n.parent == Hole(up, head) && RepPath(up, n, head)
  }

  ghost predicate At<K>(c: Path<K>, t: Shape<K>, head: AvlNode<K>)
    reads CtxCells(c), Cells(t), head
  {
    && CtxCells(c) !! Cells(t) && head !in CtxCells(c) && head !in Cells(t)
    && Rep(t) && RepPath(c, Root(t), head)
    && (t.Node? ==> t.ref.parent == Hole(c, head))
  }

  // ---------------------------------------------------------------- moving about

  ghost function ToLeft<K>(c: Path<K>, t: Shape<K>): Path<K>
    requires t.Node?
  {
    InLeft(c, t.ref, t.key, t.rank, t.bal, t.right)
  }

  ghost function ToRight<K>(c: Path<K>, t: Shape<K>): Path<K>
    requires t.Node?
  {
    InRight(c, t.left, t.ref, t.key, t.rank, t.bal)
  }

  lemma {:induction false} Descend<K>(c: Path<K>, t: Shape<K>, head: AvlNode<K>)
    requires At(c, t, head) && t.Node?
    ensures At(ToLeft(c, t), t.left, head)
    ensures At(ToRight(c, t), t.right, head)
  {
  }

  lemma {:induction false} Ascend<K>(c: Path<K>, t: Shape<K>, head: AvlNode<K>)
    requires t.Node?
    requires At(ToLeft(c, t), t.left, head) || At(ToRight(c, t), t.right, head)
    ensures At(c, t, head)
  {
  }

  /** Seen from a subtree or from the top of the part around it, memory is the same. */
  lemma {:induction false} ZipUp<K>(inner: Path<K>, c: Path<K>, t: Shape<K>, head: AvlNode<K>)
    requires At(Compose(inner, c), t, head)
    ensures At(c, Plug(inner, t), head)
  {
    match inner
    case Top =>
    case InLeft(up, n, k, rk, b, r) =>
      Ascend(Compose(up, c), Node(t, n, k, rk, b, r), head);
      ZipUp(up, c, Node(t, n, k, rk, b, r), head);
    case InRight(up, l, n, k, rk, b) =>
      Ascend(Compose(up, c), Node(l, n, k, rk, b, t), head);
      ZipUp(up, c, Node(l, n, k, rk, b, t), head);
  }

  lemma {:induction false} ZipDown<K>(inner: Path<K>, c: Path<K>, t: Shape<K>, head: AvlNode<K>)
    requires At(c, Plug(inner, t), head)
    ensures At(Compose(inner, c), t, head)
  {
    match inner
    case Top =>
    case InLeft(up, n, k, rk, b, r) =>
      ZipDown(up, c, Node(t, n, k, rk, b, r), head);
      Descend(Compose(up, c), Node(t, n, k, rk, b, r), head);
    case InRight(up, l, n, k, rk, b) =>
      ZipDown(up, c, Node(l, n, k, rk, b, t), head);
      Descend(Compose(up, c), Node(l, n, k, rk, b, t), head);
  }

  lemma {:induction false} ComposeTop<R, K>(c: Ctx<R, K>)
    ensures Compose(c, Top) == c
  {
    if !c.Top? { ComposeTop(c.up); }
  }

  // ---------------------------------------------------------------- changes in place

  lemma {:induction false} CellsAllocated<K>(t: Shape<K>)
    ensures forall n :: n in Cells(t) ==> allocated(n)
  {
    if t.Node? {
      CellsAllocated(t.left);
      CellsAllocated(t.right);
    }
  }

  lemma {:induction false} PathAllocated<K>(c: Path<K>)
    ensures forall n :: n in CtxCells(c) ==> allocated(n)
  {
    match c
    case Top =>
    case InLeft(up, _, _, _, _, r) => PathAllocated(up); CellsAllocated(r);
    case InRight(up, l, _, _, _, _) => PathAllocated(up); CellsAllocated(l);
  }

  /** AVL_SET_RANK on the root of the subtree in view. */
  method SetRank<K>(n: AvlNode<K>, r: int, ghost c: Path<K>, ghost t: Shape<K>, ghost head: AvlNode<K>)
    requires At(c, t, head) && t.Node? && n == t.ref
    modifies n`rankAndBalance
    ensures At(c, t.(rank := Wrap(r)), head)
  {
    n.rankAndBalance := PackedWord.StoreRank(n.rankAndBalance, r);
    assert Rep(t.left) && Rep(t.right);
    assert RepPath(c, n, head);
  }

  /** AVL_SET_BALANCE on the root of the subtree in view. */
  method SetBalance<K>(n: AvlNode<K>, b: int, ghost c: Path<K>, ghost t: Shape<K>, ghost head: AvlNode<K>)
    requires At(c, t, head) && t.Node? && n == t.ref && -1 <= b <= 1
    modifies n`rankAndBalance
    ensures At(c, t.(bal := b), head)
  {
    n.rankAndBalance := PackedWord.StoreBalance(n.rankAndBalance, b);
    assert Rep(t.left) && Rep(t.right);
    assert RepPath(c, n, head);
  }

  /** Hangs a new node in the empty place to the left of `p`. */
  method AddLeft<K>(p: AvlNode<K>, key: K, ghost c: Path<K>, ghost t: Shape<K>, ghost head: AvlNode<K>)
    returns (q: AvlNode<K>)
    requires At(c, t, head) && t.Node? && p == t.ref && t.left.Leaf?
    modifies p`left
    ensures fresh(q) && At(ToLeft(c, t), Single(q, key), head)
  {
    CellsAllocated(t);
    PathAllocated(c);
    Descend(c, t, head);
    q := new AvlNode<K>(Key(key), p);
    p.left := q;
    assert RepPath(c, p, head) && Rep(t.right);
  }

  /** Hangs a new node in the empty place to the right of `p`. */
  method AddRight<K>(p: AvlNode<K>, key: K, ghost c: Path<K>, ghost t: Shape<K>, ghost head: AvlNode<K>)
    returns (q: AvlNode<K>)
    requires At(c, t, head) && t.Node? && p == t.ref && t.right.Leaf?
    modifies p`right
    ensures fresh(q) && At(ToRight(c, t), Single(q, key), head)
  {
    CellsAllocated(t);
    PathAllocated(c);
    Descend(c, t, head);
    q := new AvlNode<K>(Key(key), p);
    p.right := q;
    assert RepPath(c, p, head) && Rep(t.left);
  }

  /** The subtrees below `t` are in place and apart from its root, which need not point at them yet. */
  ghost predicate Loose<K>(t: Shape<K>)
    reads Cells(t)
  {
    && t.Node? && t.ref !in Cells(t.left) && t.ref !in Cells(t.right) && Cells(t.left) !! Cells(t.right)
    && Rep(t.left) && Rep(t.right)
    && Holds(t.ref, t.key, t.rank, t.bal)
  }

  /** Moves the subtree `b` to hang from `s`, a link that is about to be stored in `s`. */
  method Adopt<K>(x: AvlNode?<K>, s: AvlNode<K>, ghost b: Shape<K>)
    requires Rep(b) && x == Root(b)
    modifies if b.Node? then {b.ref} else {}
    ensures Rep(b) && (b.Node? ==> b.ref.parent == s)
  {
    if x != null {
      x.parent := s;
      assert Rep(b.left) && Rep(b.right);
    }
  }

  /** The pointer work of a single right rotation about `s` and its left child `r`. */
  method TurnRight<K>(s: AvlNode<K>, r: AvlNode<K>, b: int, bTop: int, ghost mid: Shape<K>)
    requires Rep(mid) && r.right == Root(mid) && r != s && r !in Cells(mid) && s !in Cells(mid)
    requires -1 <= b <= 1 && -1 <= bTop <= 1
    modifies s, r, if mid.Node? then {mid.ref} else {}
    ensures Rep(mid) && (mid.Node? ==> mid.ref.parent == s)
    ensures s.left == Root(mid) && s.right == old(s.right) && s.parent == r
    ensures r.left == old(r.left) && r.right == s && r.parent == old(r.parent)
    ensures s.key == old(s.key) && s.Rank() == Wrap(old(s.Rank()) - old(r.Rank())) && s.Balance() == b
    ensures r.key == old(r.key) && r.Rank() == old(r.Rank()) && r.Balance() == bTop
  {
    s.left := r.right;
    Adopt(r.right, s, mid);
    r.right := s;
    s.parent := r;
    s.rankAndBalance := PackedWord.StoreRank(s.rankAndBalance, s.Rank() - r.Rank());
    s.rankAndBalance := PackedWord.StoreBalance(s.rankAndBalance, b);
    r.rankAndBalance := PackedWord.StoreBalance(r.rankAndBalance, bTop);
  }

  /** The pointer work of a single left rotation about `s` and its right child `r`. */
  method TurnLeft<K>(s: AvlNode<K>, r: AvlNode<K>, b: int, bTop: int, ghost mid: Shape<K>)
    requires Rep(mid) && r.left == Root(mid) && r != s && r !in Cells(mid) && s !in Cells(mid)
    requires -1 <= b <= 1 && -1 <= bTop <= 1
    modifies s, r, if mid.Node? then {mid.ref} else {}
    ensures Rep(mid) && (mid.Node? ==> mid.ref.parent == s)
    ensures s.right == Root(mid) && s.left == old(s.left) && s.parent == r
    ensures r.right == old(r.right) && r.left == s && r.parent == old(r.parent)
    ensures s.key == old(s.key) && s.Rank() == old(s.Rank()) && s.Balance() == b
    ensures r.key == old(r.key) && r.Rank() == Wrap(old(r.Rank()) + old(s.Rank())) && r.Balance() == bTop
  {
    s.right := r.left;
    Adopt(r.left, s, mid);
    r.left := s;
    s.parent := r;
    r.rankAndBalance := PackedWord.StoreRank(r.rankAndBalance, r.Rank() + s.Rank());
    s.rankAndBalance := PackedWord.StoreBalance(s.rankAndBalance, b);
    r.rankAndBalance := PackedWord.StoreBalance(r.rankAndBalance, bTop);
  }

  /** Single right rotation: `r`, the left child, takes the place of `s`. */
  method RotateRightAt<K>(s: AvlNode<K>, r: AvlNode<K>, b: int, bTop: int, ghost t: Shape<K>)
    requires Loose(t) && t.left.Node? && s == t.ref && r == t.left.ref && -1 <= b <= 1 && -1 <= bTop <= 1
    requires s.right == Root(t.right) && (t.right.Node? ==> t.right.ref.parent == s)
    modifies Cells(t)
    ensures Rep(RotateRight(t, b, bTop)) && Cells(RotateRight(t, b, bTop)) == Cells(t)
  {
    ghost var u := RotateRight(t, b, bTop);
    CellsAllocated(t);
    assert Rep(t.left);
    TurnRight(s, r, b, bTop, t.left.right);
    assert Cells(u.right) == Cells(t.left.right) + {s} + Cells(t.right);
    assert Rep(u.right);
  }

  /** Single left rotation: `r`, the right child, takes the place of `s`. */
  method RotateLeftAt<K>(s: AvlNode<K>, r: AvlNode<K>, b: int, bTop: int, ghost t: Shape<K>)
    requires Loose(t) && t.right.Node? && s == t.ref && r == t.right.ref && -1 <= b <= 1 && -1 <= bTop <= 1
    requires s.left == Root(t.left) && (t.left.Node? ==> t.left.ref.parent == s)
    modifies Cells(t)
    ensures Rep(RotateLeft(t, b, bTop)) && Cells(RotateLeft(t, b, bTop)) == Cells(t)
  {
    ghost var u := RotateLeft(t, b, bTop);
    CellsAllocated(t);
    assert Rep(t.right);
    TurnLeft(s, r, b, bTop, t.right.left);
    assert Cells(u.left) == Cells(t.left) + {s} + Cells(t.right.left);
    assert Rep(u.left);
  }

  /**
  Double right rotation: a left rotation about the left child `r`, then a right rotation about `s`.
  The right child `p` of `r` takes the place of `s`.
  */
  method DoubleRightAt<K>(s: AvlNode<K>, r: AvlNode<K>, ghost t: Shape<K>) returns (p: AvlNode<K>)
    requires t.Node? && t.left.Node? && t.left.right.Node? && Rep(t) && s == t.ref && r == t.left.ref
    modifies Cells(t)
    ensures Rep(DoubleRight(t)) && Cells(DoubleRight(t)) == Cells(t) && p == DoubleRight(t).ref
  {
    CellsAllocated(t);
    ghost var d := DoubleRight(t);
    assert Rep(t.left);
    p := r.right;
    var bs := if p.Balance() == -1 then 1 else 0;
    var br := if p.Balance() == 1 then -1 else 0;
    RotateLeftAt(r, p, br, 0, t.left);
    ghost var t1 := t.(left := RotateLeft(t.left, br, 0));
    assert Loose(t1);
    RotateRightAt(s, p, bs, 0, t1);
    assert d == RotateRight(t1, bs, 0);
  }

  /** Double left rotation: a right rotation about the right child `r`, then a left one about `s`. */
  method DoubleLeftAt<K>(s: AvlNode<K>, r: AvlNode<K>, ghost t: Shape<K>) returns (p: AvlNode<K>)
    requires t.Node? && t.right.Node? && t.right.left.Node? && Rep(t) && s == t.ref && r == t.right.ref
    modifies Cells(t)
    ensures Rep(DoubleLeft(t)) && Cells(DoubleLeft(t)) == Cells(t) && p == DoubleLeft(t).ref
  {
    CellsAllocated(t);
    ghost var d := DoubleLeft(t);
    assert Rep(t.right);
    p := r.left;
    var bs := if p.Balance() == 1 then -1 else 0;
    var br := if p.Balance() == -1 then 1 else 0;
    RotateRightAt(r, p, br, 0, t.right);
    ghost var t1 := t.(right := RotateRight(t.right, br, 0));
    assert Loose(t1);
    RotateLeftAt(s, p, bs, 0, t1);
    assert d == RotateLeft(t1, bs, 0);
  }

  /** Tells `top`, the node the hole hangs from, that `new` now stands where `old` stood. */
  method Relink<K>(top: AvlNode<K>, old': AvlNode<K>, new': AvlNode?<K>, head: AvlNode<K>, ghost c: Path<K>)
    returns (side: int)
    requires RepPath(c, old', head) && top == Hole(c, head) && head !in CtxCells(c)
    requires old' !in CtxCells(c) && old' != head && (c.Top? ==> head.left == null)
    modifies top
    ensures RepPath(c, new', head) && top.parent == old(top.parent) && top.key == old(top.key)
    ensures c.Top? ==> head.left == null
    ensures side == -1 || side == 1
    ensures !c.Top? ==> (side == -1 <==> c.InLeft?)
  {
    if old' == top.left {
      assert c.InLeft?;
      top.left := new';
      side := -1;
    } else {
      assert !c.InLeft?;
      top.right := new';
      side := 1;
    }
    if !c.Top? {
      assert RepPath(c.up, c.ref, head);
    }
  }

  /** Below the top there is always a node on the path that the head points to. */
  lemma {:induction false} HeadPointsIntoPath<K>(c: Path<K>, x: AvlNode?<K>, head: AvlNode<K>)
    requires RepPath(c, x, head)
    ensures c.Top? ==> head.right == x
    ensures !c.Top? ==> head.right in CtxCells(c)
  {
    if !c.Top? { HeadPointsIntoPath(c.up, c.ref, head); }
  }

  lemma {:induction false} AtTheTop<K>(c: Path<K>, t: Shape<K>, head: AvlNode<K>)
    requires At(c, t, head) && t.Node?
    ensures c.Top? <==> head.right == t.ref
  {
    HeadPointsIntoPath(c, t.ref, head);
  }

  /** The climb that undoes the rank changes of a search which ended at `x` without success. */
  method RestoreRanks<K>(start: AvlNode<K>, head: AvlNode<K>, ghost c0: Path<K>, ghost t0: Shape<K>)
    requires At(Rerank(c0, -1), t0, head) && t0.Node? && start == t0.ref
    modifies CtxCells(c0)
    ensures At(Top, Plug(c0, t0), head)
  {
    var x := start;
    ghost var c, t := c0, t0;
    AtTheTop(Rerank(c, -1), t, head);
    while x != head.right
      invariant At(Rerank(c, -1), t, head) && t.Node? && x == t.ref
      invariant c.Top? <==> x == head.right
      invariant Plug(c, t) == Plug(c0, t0) && CtxCells(c) <= CtxCells(c0)
      decreases c
    {
      x, c, t := RestoreStep(x, head, c, t);
      AtTheTop(Rerank(c, -1), t, head);
    }
  }

  method RestoreStep<K>(x: AvlNode<K>, head: AvlNode<K>, ghost c: Path<K>, ghost t: Shape<K>)
    returns (p: AvlNode<K>, ghost c': Path<K>, ghost t': Shape<K>)
    requires !c.Top? && At(Rerank(c, -1), t, head) && t.Node? && x == t.ref
    modifies c.ref
    ensures c' == c.up && At(Rerank(c', -1), t', head) && t'.Node? && p == t'.ref
    ensures Plug(c', t') == Plug(c, t) && CtxCells(c') <= CtxCells(c)
  {
    ghost var low := Rerank(c, -1);
    p := x.parent;
    c' := c.up;
    t' := Joint(low, t);
    Ascend(Rerank(c', -1), t', head);
    if p.left == x {
      assert c.InLeft?;
      SetRank(p, p.Rank() + 1, Rerank(c', -1), t', head);
      WrapSub(c.rank, 1);
      WrapAdd(c.rank - 1, 1);
    }
    t' := Joint(c, t);
  }

  /** Finds the rightmost node below the left child of `x`. */
  method FindPredecessor<K>(x: AvlNode<K>, ghost c: Path<K>, ghost t: Shape<K>, ghost head: AvlNode<K>)
    returns (y: AvlNode<K>, ghost inner: Path<K>, ghost sub: Shape<K>)
    requires At(c, t, head) && t.Node? && x == t.ref && t.left.Node?
    ensures Predecessor(t, inner, sub) && y == sub.ref && At(Compose(inner, ToLeft(c, t)), sub, head)
  {
    Descend(c, t, head);
    y := x.left;
    inner, sub := Top, t.left;
    while y.right != null
      invariant sub.Node? && y == sub.ref && OnlyRight(inner) && Plug(inner, sub) == t.left
      invariant At(Compose(inner, ToLeft(c, t)), sub, head)
      decreases sub
    {
      Descend(Compose(inner, ToLeft(c, t)), sub, head);
      y := y.right;
      inner, sub := ToRight(inner, sub), sub.right;
    }
  }

  /**
  Swaps the keys of `x` and its predecessor `y` and lowers the rank of `x`, whose left subtree is
  about to lose a node.
  */
  method SwapKeys<K>(x: AvlNode<K>, y: AvlNode<K>, ghost c: Path<K>, ghost t: Shape<K>,
                     ghost inner: Path<K>, ghost sub: Shape<K>, ghost head: AvlNode<K>)
    requires t.Node? && x == t.ref && sub.Node? && y == sub.ref && Plug(inner, sub) == t.left
    requires At(Compose(inner, ToLeft(c, t)), sub, head)
    modifies x, y
    ensures At(Compose(inner, InLeft(c, t.ref, sub.key, Wrap(t.rank - 1), t.bal, t.right)),
               sub.(key := t.key), head)
  {
    ghost var t1 := t.(key := sub.key);
    ghost var t2 := t1.(rank := Wrap(t.rank - 1));
    var tempKey, yKey := x.key, y.key;
    assert Holds(y, sub.key, sub.rank, sub.bal);
    ZipUp(inner, ToLeft(c, t), sub, head);
    Ascend(c, t, head);
    assert Holds(x, t.key, t.rank, t.bal);
    SetKey(x, yKey, c, t, sub.key, head);
    assert Holds(x, sub.key, t.rank, t.bal);
    SetRank(x, x.Rank() - 1, c, t1, head);
    Descend(c, t2, head);
    ZipDown(inner, ToLeft(c, t2), sub, head);
    SetKey(y, tempKey, Compose(inner, ToLeft(c, t2)), sub, t.key, head);
  }

  method SetKey<K>(n: AvlNode<K>, k: KeyPtr<K>, ghost c: Path<K>, ghost t: Shape<K>, ghost key: K,
                   ghost head: AvlNode<K>)
    requires At(c, t, head) && t.Node? && n == t.ref && k == Key(key)
    modifies n`key
    ensures At(c, t.(key := key), head)
  {
    n.key := k;
    assert Rep(t.left) && Rep(t.right);
    assert RepPath(c, n, head);
  }
}
