/**
The value of an AVL tree, with the memory it lives in left out.

A `Tree` records, for every node, which cell holds it (`ref`), its key, its stored rank and its
stored balance factor.  A `Ctx` is a tree with one subtree missing: the path a search or a climb
has taken, innermost node first.  Everything the tree code promises about order, balance and rank
is proved here on values; `AvlTree` shows that the cells in memory always spell out such a value.
*/
module AvlShape {

  /** The stored rank has 30 bits; writing one keeps the low 30 bits of what it is given. */
  type Rank30 = r: int | 0 <= r < 0x4000_0000

  function Wrap(r: int): Rank30 { r % 0x4000_0000 }

  lemma {:induction false} WrapAdd(x: int, y: int)
    ensures Wrap(Wrap(x) + Wrap(y)) == Wrap(x + y)
    ensures Wrap(Wrap(x) + y) == Wrap(x + y)
  {
    var m := 0x4000_0000;
    assert Wrap(x) == x - m * (x / m) && Wrap(y) == y - m * (y / m);
  }

  lemma {:induction false} WrapSub(x: int, y: int)
    ensures Wrap(Wrap(x) - Wrap(y)) == Wrap(x - y)
    ensures Wrap(Wrap(x) - y) == Wrap(x - y)
  {
    var m := 0x4000_0000;
    assert Wrap(x) == x - m * (x / m) && Wrap(y) == y - m * (y / m);
  }

  datatype Tree<R, K> =
    | Leaf
    | Node(left: Tree, ref: R, key: K, rank: Rank30, bal: int, right: Tree)

  /** A tree with a hole.  `InLeft` is a node whose left subtree is the hole. */
  datatype Ctx<R, K> =
    | Top
    | InLeft(up: Ctx, ref: R, key: K, rank: Rank30, bal: int, right: Tree<R, K>)
    | InRight(up: Ctx, left: Tree<R, K>, ref: R, key: K, rank: Rank30, bal: int)

  // ---------------------------------------------------------------- measures of a tree

  ghost function Size<R, K>(t: Tree<R, K>): nat {
    if t.Leaf? then 0 else Size(t.left) + 1 + Size(t.right)
  }

  ghost function Keys<R, K>(t: Tree<R, K>): (s: seq<K>)
    ensures |s| == Size(t)
  {
    if t.Leaf? then [] else Keys(t.left) + [t.key] + Keys(t.right)
  }

  ghost function Refs<R, K>(t: Tree<R, K>): (s: seq<R>)
    ensures |s| == Size(t)
  {
    if t.Leaf? then [] else Refs(t.left) + [t.ref] + Refs(t.right)
  }

  ghost function Ranks<R, K>(t: Tree<R, K>): (s: seq<int>)
    ensures |s| == Size(t)
  {
    if t.Leaf? then [] else Ranks(t.left) + [t.rank] + Ranks(t.right)
  }

  ghost function Cells<R, K>(t: Tree<R, K>): set<R> {
    if t.Leaf? then {} else Cells(t.left) + {t.ref} + Cells(t.right)
  }

  function Max(a: int, b: int): int { if a > b then a else b }

  ghost function Height<R, K>(t: Tree<R, K>): nat {
    if t.Leaf? then 0 else 1 + Max(Height(t.left), Height(t.right))
  }

  /** Every stored balance factor is the true height difference, and lies in -1..1. */
  ghost predicate Balanced<R, K>(t: Tree<R, K>) {
    t.Node? ==>
      && Balanced(t.left) && Balanced(t.right)
      && t.bal == Height(t.right) - Height(t.left)
      && -1 <= t.bal <= 1
  }

  /** Every stored rank is the size of the left subtree plus one (as far as 30 bits can tell). */
  ghost predicate Ranked<R, K>(t: Tree<R, K>) {
    t.Node? ==>
      && Ranked(t.left) && Ranked(t.right)
      && t.rank == Wrap(Size(t.left) + 1)
  }

  // ---------------------------------------------------------------- contexts

  ghost function Plug<R, K>(c: Ctx<R, K>, t: Tree<R, K>): Tree<R, K> {
    match c
    case Top => t
    case InLeft(up, n, k, rk, b, r) => Plug(up, Node(t, n, k, rk, b, r))
    case InRight(up, l, n, k, rk, b) => Plug(up, Node(l, n, k, rk, b, t))
  }

  /** The context `inner`, itself put in the hole of `outer`. */
  ghost function Compose<R, K>(inner: Ctx<R, K>, outer: Ctx<R, K>): Ctx<R, K> {
    match inner
    case Top => outer
    case InLeft(up, n, k, rk, b, r) => InLeft(Compose(up, outer), n, k, rk, b, r)
    case InRight(up, l, n, k, rk, b) => InRight(Compose(up, outer), l, n, k, rk, b)
  }

  ghost function CtxCells<R, K>(c: Ctx<R, K>): set<R> {
    match c
    case Top => {}
    case InLeft(up, n, _, _, _, r) => CtxCells(up) + {n} + Cells(r)
    case InRight(up, l, n, _, _, _) => CtxCells(up) + {n} + Cells(l)
  }

  /** The keys before and after the hole, in order. */
  ghost function Before<R, K>(c: Ctx<R, K>): seq<K> {
    match c
    case Top => []
    case InLeft(up, _, _, _, _, _) => Before(up)
    case InRight(up, l, _, k, _, _) => Before(up) + Keys(l) + [k]
  }

  ghost function After<R, K>(c: Ctx<R, K>): seq<K> {
    match c
    case Top => []
    case InLeft(up, _, k, _, _, r) => [k] + Keys(r) + After(up)
    case InRight(up, _, _, _, _, _) => After(up)
  }

  ghost function RefsBefore<R, K>(c: Ctx<R, K>): (s: seq<R>)
    ensures |s| == |Before(c)|
  {
    match c
    case Top => []
    case InLeft(up, _, _, _, _, _) => RefsBefore(up)
    case InRight(up, l, n, _, _, _) => RefsBefore(up) + Refs(l) + [n]
  }

  ghost function RefsAfter<R, K>(c: Ctx<R, K>): (s: seq<R>)
    ensures |s| == |After(c)|
  {
    match c
    case Top => []
    case InLeft(up, n, _, _, _, r) => [n] + Refs(r) + RefsAfter(up)
    case InRight(up, _, _, _, _, _) => RefsAfter(up)
  }

  /** The context is balanced around a hole of height `h`. */
  ghost predicate BalancedCtx<R, K>(c: Ctx<R, K>, h: nat) {
    match c
    case Top => true
    case InLeft(up, _, _, _, b, r) =>
      && Balanced(r) && b == Height(r) - h && -1 <= b <= 1
      && BalancedCtx(up, 1 + Max(h, Height(r)))
    case InRight(up, l, _, _, _, b) =>
      && Balanced(l) && b == h - Height(l) && -1 <= b <= 1
      && BalancedCtx(up, 1 + Max(Height(l), h))
  }

  /** The context's ranks are right around a hole of `size` nodes. */
  ghost predicate RankedCtx<R, K>(c: Ctx<R, K>, size: nat) {
    match c
    case Top => true
    case InLeft(up, _, _, rk, _, r) =>
      Ranked(r) && rk == Wrap(size + 1) && RankedCtx(up, size + 1 + Size(r))
    case InRight(up, l, _, _, rk, _) =>
      Ranked(l) && rk == Wrap(Size(l) + 1) && RankedCtx(up, Size(l) + 1 + size)
  }

  ghost function PlugHeight<R, K>(c: Ctx<R, K>, h: nat): nat {
    match c
    case Top => h
    case InLeft(up, _, _, _, _, r) => PlugHeight(up, 1 + Max(h, Height(r)))
    case InRight(up, l, _, _, _, _) => PlugHeight(up, 1 + Max(Height(l), h))
  }

  lemma SeqShift<T>(a: seq<T>, b: seq<T>, x: T, c: seq<T>, d: seq<T>)
    ensures a + (b + [x] + c) + d == a + b + ([x] + c + d)
    ensures a + (b + [x] + c) + d == (a + b + [x]) + c + d
  {}

  lemma {:induction false} PlugKeys<R, K>(c: Ctx<R, K>, t: Tree<R, K>)
    ensures Keys(Plug(c, t)) == Before(c) + Keys(t) + After(c)
  {
    match c
    case Top =>
    case InLeft(up, n, k, rk, b, r) =>
      PlugKeys(up, Node(t, n, k, rk, b, r));
      SeqShift(Before(up), Keys(t), k, Keys(r), After(up));
    case InRight(up, l, n, k, rk, b) =>
      PlugKeys(up, Node(l, n, k, rk, b, t));
      SeqShift(Before(up), Keys(l), k, Keys(t), After(up));
  }

  lemma {:induction false} PlugRefs<R, K>(c: Ctx<R, K>, t: Tree<R, K>)
    ensures Refs(Plug(c, t)) == RefsBefore(c) + Refs(t) + RefsAfter(c)
  {
    match c
    case Top =>
    case InLeft(up, n, k, rk, b, r) =>
      PlugRefs(up, Node(t, n, k, rk, b, r));
      SeqShift(RefsBefore(up), Refs(t), n, Refs(r), RefsAfter(up));
    case InRight(up, l, n, k, rk, b) =>
      PlugRefs(up, Node(l, n, k, rk, b, t));
      SeqShift(RefsBefore(up), Refs(l), n, Refs(t), RefsAfter(up));
  }

  lemma {:induction false} PlugCells<R, K>(c: Ctx<R, K>, t: Tree<R, K>)
    ensures Cells(Plug(c, t)) == CtxCells(c) + Cells(t)
  {
    match c
    case Top =>
    case InLeft(up, n, k, rk, b, r) => PlugCells(up, Node(t, n, k, rk, b, r));
    case InRight(up, l, n, k, rk, b) => PlugCells(up, Node(l, n, k, rk, b, t));
  }

  /** Balance and rank of the whole are those of the part and of what surrounds it. */
  lemma {:induction false} PlugBalanced<R, K>(c: Ctx<R, K>, t: Tree<R, K>)
    ensures Balanced(Plug(c, t)) <==> Balanced(t) && BalancedCtx(c, Height(t))
    ensures Height(Plug(c, t)) == PlugHeight(c, Height(t))
  {
    match c
    case Top =>
    case InLeft(up, n, k, rk, b, r) => PlugBalanced(up, Node(t, n, k, rk, b, r));
    case InRight(up, l, n, k, rk, b) => PlugBalanced(up, Node(l, n, k, rk, b, t));
  }

  lemma NodeRanked<R, K>(t: Tree<R, K>)
    requires t.Node?
    ensures Size(t) == Size(t.left) + 1 + Size(t.right)
    ensures Ranked(t) <==> Ranked(t.left) && Ranked(t.right) && t.rank == Wrap(Size(t.left) + 1)
  {}

  lemma {:induction false} PlugRanked<R, K>(c: Ctx<R, K>, t: Tree<R, K>)
    ensures Ranked(Plug(c, t)) <==> Ranked(t) && RankedCtx(c, Size(t))
  {
    match c
    case Top =>
    case InLeft(up, n, k, rk, b, r) =>
      var whole := Node(t, n, k, rk, b, r);
      NodeRanked(whole);
      PlugRanked(up, whole);
    case InRight(up, l, n, k, rk, b) =>
      var whole := Node(l, n, k, rk, b, t);
      NodeRanked(whole);
      PlugRanked(up, whole);
  }

  lemma {:induction false} PlugCompose<R, K>(inner: Ctx<R, K>, outer: Ctx<R, K>, t: Tree<R, K>)
    ensures Plug(Compose(inner, outer), t) == Plug(outer, Plug(inner, t))
    ensures CtxCells(Compose(inner, outer)) == CtxCells(inner) + CtxCells(outer)
    ensures Before(Compose(inner, outer)) == Before(outer) + Before(inner)
    ensures After(Compose(inner, outer)) == After(inner) + After(outer)
  {
    ComposeKeys(inner, outer);
    match inner
    case Top =>
    case InLeft(up, n, k, rk, b, r) => PlugCompose(up, outer, Node(t, n, k, rk, b, r));
    case InRight(up, l, n, k, rk, b) => PlugCompose(up, outer, Node(l, n, k, rk, b, t));
  }

  lemma {:induction false} ComposeKeys<R, K>(inner: Ctx<R, K>, outer: Ctx<R, K>)
    ensures Before(Compose(inner, outer)) == Before(outer) + Before(inner)
    ensures After(Compose(inner, outer)) == After(inner) + After(outer)
  {
    if !inner.Top? {
      ComposeKeys(inner.up, outer);
    }
  }

  /** A taller hole makes a taller, or an equally tall, whole, by one level at most. */
  lemma {:induction false} PlugHeightStep<R, K>(c: Ctx<R, K>, h: nat)
    ensures PlugHeight(c, h) <= PlugHeight(c, h + 1) <= PlugHeight(c, h) + 1
  {
    match c
    case Top =>
    case InLeft(up, n, k, rk, b, r) =>
      if h >= Height(r) { PlugHeightStep(up, 1 + h); }
    case InRight(up, l, n, k, rk, b) =>
      if h >= Height(l) { PlugHeightStep(up, 1 + h); }
  }

  /**
  Order statistics: the node found in the hole at position `i` of the whole.
  Splits `t` around its `i`-th node.
  */
  ghost function SplitAt<R, K>(t: Tree<R, K>, c: Ctx<R, K>, i: nat): (r: (Ctx<R, K>, Tree<R, K>))
    requires i < Size(t)
    ensures r.1.Node? && Plug(r.0, r.1) == Plug(c, t)
    ensures r.1.key == Keys(t)[i] && r.1.ref == Refs(t)[i]
    ensures |Before(r.0)| + Size(r.1.left) == |Before(c)| + i
    decreases t
  {
    if i < Size(t.left) then SplitAt(t.left, InLeft(c, t.ref, t.key, t.rank, t.bal, t.right), i)
    else if i == Size(t.left) then (c, t)
    else SplitAt(t.right, InRight(c, t.left, t.ref, t.key, t.rank, t.bal), i - Size(t.left) - 1)
  }

  /** Exactness: below 2^30 nodes a right rank is the left size plus one, with no wrap-around. */
  lemma {:induction false} RankExact<R, K>(t: Tree<R, K>)
    requires t.Node? && Ranked(t) && Size(t) < 0x4000_0000
    ensures t.rank == Size(t.left) + 1
  {
    assert Size(t) == Size(t.left) + 1 + Size(t.right);
  }

  // ---------------------------------------------------------------- rotations

  /** Single right rotation of `t` about its left child; the two balance factors are given. */
  ghost function RotateRight<R, K>(t: Tree<R, K>, b: int, bTop: int): Tree<R, K>
    requires t.Node? && t.left.Node?
  {
    var r := t.left;
    Node(r.left, r.ref, r.key, r.rank, bTop,
         Node(r.right, t.ref, t.key, Wrap(t.rank - r.rank), b, t.right))
  }

  ghost function RotateLeft<R, K>(t: Tree<R, K>, b: int, bTop: int): Tree<R, K>
    requires t.Node? && t.right.Node?
  {
    var r := t.right;
    Node(Node(t.left, t.ref, t.key, t.rank, b, r.left),
         r.ref, r.key, Wrap(r.rank + t.rank), bTop, r.right)
  }

  /** Left rotation about the left child, then right rotation about the top. */
  ghost function DoubleRight<R, K>(t: Tree<R, K>): Tree<R, K>
    requires t.Node? && t.left.Node? && t.left.right.Node?
  {
    var r := t.left;
    var p := r.right;
    var pRank := Wrap(p.rank + r.rank);
    Node(Node(r.left, r.ref, r.key, r.rank, if p.bal == 1 then -1 else 0, p.left),
         p.ref, p.key, pRank, 0,
         Node(p.right, t.ref, t.key, Wrap(t.rank - pRank), if p.bal == -1 then 1 else 0, t.right))
  }

  ghost function DoubleLeft<R, K>(t: Tree<R, K>): Tree<R, K>
    requires t.Node? && t.right.Node? && t.right.left.Node?
  {
    var r := t.right;
    var p := r.left;
    Node(Node(t.left, t.ref, t.key, t.rank, if p.bal == 1 then -1 else 0, p.left),
         p.ref, p.key, Wrap(p.rank + t.rank), 0,
         Node(p.right, r.ref, r.key, Wrap(r.rank - p.rank), if p.bal == -1 then 1 else 0, r.right))
  }

  lemma SeqRegroup<T>(a: seq<T>, x: T, b: seq<T>, y: T, c: seq<T>)
    ensures (a + [x] + b) + [y] + c == a + [x] + (b + [y] + c)
  {}

  /** A rotation moves no key out of order. */
  lemma {:induction false} RotationKeys<R, K>(t: Tree<R, K>, b: int, bTop: int)
    ensures t.Node? && t.left.Node? ==> Keys(RotateRight(t, b, bTop)) == Keys(t)
    ensures t.Node? && t.right.Node? ==> Keys(RotateLeft(t, b, bTop)) == Keys(t)
  {
    if t.Node? && t.left.Node? {
      var r, u := t.left, RotateRight(t, b, bTop).right;
      SeqRegroup(Keys(r.left), r.key, Keys(r.right), t.key, Keys(t.right));
      assert Keys(u) == Keys(r.right) + [t.key] + Keys(t.right);
    }
    if t.Node? && t.right.Node? {
      var r, u := t.right, RotateLeft(t, b, bTop).left;
      SeqRegroup(Keys(t.left), t.key, Keys(r.left), r.key, Keys(r.right));
      assert Keys(u) == Keys(t.left) + [t.key] + Keys(r.left);
    }
  }

  lemma {:induction false} DoubleRotationKeys<R, K>(t: Tree<R, K>)
    ensures t.Node? && t.left.Node? && t.left.right.Node? ==> Keys(DoubleRight(t)) == Keys(t)
    ensures t.Node? && t.right.Node? && t.right.left.Node? ==> Keys(DoubleLeft(t)) == Keys(t)
  {
    if t.Node? && t.left.Node? && t.left.right.Node? {
      var r, d := t.left, DoubleRight(t);
      var t1 := t.(left := RotateLeft(r, d.left.bal, 0));
      RotationKeys(r, d.left.bal, 0);
      RotationKeys(t1, d.right.bal, 0);
      assert Keys(t1) == Keys(t);
    }
    if t.Node? && t.right.Node? && t.right.left.Node? {
      var r, d := t.right, DoubleLeft(t);
      var t1 := t.(right := RotateRight(r, d.right.bal, 0));
      RotationKeys(r, d.right.bal, 0);
      RotationKeys(t1, d.left.bal, 0);
      assert Keys(t1) == Keys(t);
    }
  }

  lemma {:induction false} RotateRightRanked<R, K>(t: Tree<R, K>, b: int, bTop: int)
    requires Ranked(t) && t.Node? && t.left.Node?
    ensures Ranked(RotateRight(t, b, bTop))
  {
    var r, u := t.left, RotateRight(t, b, bTop).right;
    WrapSub(Size(r) + 1, Size(r.left) + 1);
    assert Ranked(u);
  }

  lemma {:induction false} RotateLeftRanked<R, K>(t: Tree<R, K>, b: int, bTop: int)
    requires Ranked(t) && t.Node? && t.right.Node?
    ensures Ranked(RotateLeft(t, b, bTop))
  {
    var r, u := t.right, RotateLeft(t, b, bTop).left;
    WrapAdd(Size(r.left) + 1, Size(t.left) + 1);
    assert Ranked(u);
  }

  /** A rotation carries right ranks to right ranks. */
  lemma {:induction false} RotationRanked<R, K>(t: Tree<R, K>, b: int, bTop: int)
    requires Ranked(t)
    ensures t.Node? && t.left.Node? ==> Ranked(RotateRight(t, b, bTop))
    ensures t.Node? && t.right.Node? ==> Ranked(RotateLeft(t, b, bTop))
  {
    if t.Node? && t.left.Node? { RotateRightRanked(t, b, bTop); }
    if t.Node? && t.right.Node? { RotateLeftRanked(t, b, bTop); }
  }

  lemma {:induction false} DoubleRightRanked<R, K>(t: Tree<R, K>)
    requires Ranked(t) && t.Node? && t.left.Node? && t.left.right.Node?
    ensures Ranked(DoubleRight(t))
  {
    var r, d := t.left, DoubleRight(t);
    var r1 := RotateLeft(r, d.left.bal, 0);
    var t1 := t.(left := r1);
    assert Ranked(r1) && Size(r1) == Size(r) by {
      RotationKeys(r, d.left.bal, 0);
      RotationRanked(r, d.left.bal, 0);
    }
    assert Ranked(t1);
    RotationRanked(t1, d.right.bal, 0);
    assert d == RotateRight(t1, d.right.bal, 0);
  }

  lemma {:induction false} DoubleLeftRanked<R, K>(t: Tree<R, K>)
    requires Ranked(t) && t.Node? && t.right.Node? && t.right.left.Node?
    ensures Ranked(DoubleLeft(t))
  {
    var r, d := t.right, DoubleLeft(t);
    var r1 := RotateRight(r, d.right.bal, 0);
    var t1 := t.(right := r1);
    assert Ranked(r1) && Size(r1) == Size(r) by {
      RotationKeys(r, d.right.bal, 0);
      RotationRanked(r, d.right.bal, 0);
    }
    assert Ranked(t1);
    RotationRanked(t1, d.left.bal, 0);
    assert d == RotateLeft(t1, d.left.bal, 0);
  }

  /** A double rotation keeps the cells it works on. */
  lemma {:induction false} DoubleRightCells<R, K>(p: Tree<R, K>)
    requires p.Node? && p.left.Node? && p.left.right.Node?
    ensures Cells(DoubleRight(p)) == Cells(p)
  {
    var r, d := p.left, DoubleRight(p);
    assert Cells(r) == Cells(r.left) + {r.ref} + Cells(r.right);
    assert Cells(d.left) == Cells(r.left) + {r.ref} + Cells(r.right.left);
    assert Cells(d.right) == Cells(r.right.right) + {p.ref} + Cells(p.right);
  }

  lemma {:induction false} DoubleLeftCells<R, K>(p: Tree<R, K>)
    requires p.Node? && p.right.Node? && p.right.left.Node?
    ensures Cells(DoubleLeft(p)) == Cells(p)
  {
    var r, d := p.right, DoubleLeft(p);
    assert Cells(r) == Cells(r.left) + {r.ref} + Cells(r.right);
    assert Cells(d.left) == Cells(p.left) + {p.ref} + Cells(r.left.left);
    assert Cells(d.right) == Cells(r.left.right) + {r.ref} + Cells(r.right);
  }
}
