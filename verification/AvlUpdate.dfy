/**
What insertion and deletion do to the value of a tree: the sorted-sequence reference they are
measured against, and the single local repair each of them makes.
*/
module AvlUpdate {
  import opened AvlShape

  /** Marks three keys for the transitivity law below, which is applied only where it is asked for. */
  ghost predicate Chain<K>(a: K, b: K, c: K) { true }

  /** What the tree asks of its compare function. */
  ghost predicate TotalPreorder<K(!new)>(cmp: (K, K) -> int) {
    && (forall a, b :: cmp(a, b) < 0 <==> cmp(b, a) > 0)
    && (forall a, b, c {:trigger Chain(a, b, c)} :: cmp(a, b) <= 0 && cmp(b, c) <= 0 ==> cmp(a, c) <= 0)
  }

  lemma Transitive<K(!new)>(cmp: (K, K) -> int, a: K, b: K, c: K)
    requires TotalPreorder(cmp) && cmp(a, b) <= 0 && cmp(b, c) <= 0
    ensures cmp(a, c) <= 0
  {
    assert Chain(a, b, c);
  }

  ghost predicate Sorted<K>(cmp: (K, K) -> int, s: seq<K>) {
    forall i, j :: 0 <= i < j < |s| ==> cmp(s[i], s[j]) <= 0
  }

  // ---------------------------------------------------------------- reference: sorted sequences

  /** How many entries come before `key`: the length of the leading run of smaller entries. */
  ghost function CountLess<K>(cmp: (K, K) -> int, s: seq<K>, key: K): (i: nat)
    ensures i <= |s|
    ensures forall j :: 0 <= j < i ==> cmp(key, s[j]) > 0
    ensures i < |s| ==> cmp(key, s[i]) <= 0
  {
    if s == [] || cmp(key, s[0]) <= 0 then 0 else 1 + CountLess(cmp, s[1..], key)
  }

  ghost function InsertAt<K>(s: seq<K>, i: nat, key: K): seq<K>
    requires i <= |s|
  {
    s[..i] + [key] + s[i..]
  }

  ghost function RemoveAt<K>(s: seq<K>, i: nat): seq<K>
    requires i < |s|
  {
    s[..i] + s[i + 1..]
  }

  /** In a sorted sequence, "less than the key" never resumes once it has stopped. */
  lemma {:induction false} SortedSplit<K(!new)>(cmp: (K, K) -> int, s: seq<K>, key: K, j: nat)
    requires TotalPreorder(cmp) && Sorted(cmp, s) && j < |s|
    ensures cmp(key, s[j]) > 0 <==> j < CountLess(cmp, s, key)
  {
    var i := CountLess(cmp, s, key);
    if i < j {
      Transitive(cmp, key, s[i], s[j]);
    }
  }

  lemma {:induction false} SortedPair<K(!new)>(cmp: (K, K) -> int, s: seq<K>, key: K, u: seq<K>, n: nat, i: nat, j: nat)
    requires TotalPreorder(cmp) && Sorted(cmp, s) && n == CountLess(cmp, s, key)
    requires u == InsertAt(s, n, key) && i < j < |u|
    ensures cmp(u[i], u[j]) <= 0
  {
    if i == n {
      SortedSplit(cmp, s, key, j - 1);
    } else if j == n {
      assert cmp(key, s[i]) > 0;
    } else {
      var i', j' := if i < n then i else i - 1, if j < n then j else j - 1;
      assert cmp(s[i'], s[j']) <= 0;
    }
  }

  lemma {:induction false} SortedInsert<K(!new)>(cmp: (K, K) -> int, s: seq<K>, key: K)
    requires TotalPreorder(cmp) && Sorted(cmp, s)
    ensures Sorted(cmp, InsertAt(s, CountLess(cmp, s, key), key))
  {
    var n := CountLess(cmp, s, key);
    var u := InsertAt(s, n, key);
    forall i, j | 0 <= i < j < |u|
      ensures cmp(u[i], u[j]) <= 0
    {
      SortedPair(cmp, s, key, u, n, i, j);
    }
  }

  lemma SortedRemove<K>(cmp: (K, K) -> int, s: seq<K>, i: nat)
    requires Sorted(cmp, s) && i < |s|
    ensures Sorted(cmp, RemoveAt(s, i))
  {
    var u := RemoveAt(s, i);
    forall a, b | 0 <= a < b < |u|
      ensures cmp(u[a], u[b]) <= 0
    {
      var a', b' := if a < i then a else a + 1, if b < i then b else b + 1;
      assert cmp(s[a'], s[b']) <= 0;
    }
  }

  // ---------------------------------------------------------------- rank adjustments on a path

  /** The context with every rank on the left-going part of its path changed by `d`. */
  ghost function Rerank<R, K>(c: Ctx<R, K>, d: int): Ctx<R, K> {
    match c
    case Top => Top
    case InLeft(up, n, k, rk, b, r) => InLeft(Rerank(up, d), n, k, Wrap(rk + d), b, r)
    case InRight(up, l, n, k, rk, b) => InRight(Rerank(up, d), l, n, k, rk, b)
  }

  lemma {:induction false} RerankKeeps<R, K>(c: Ctx<R, K>, d: int, h: nat)
    ensures Before(Rerank(c, d)) == Before(c) && After(Rerank(c, d)) == After(c)
    ensures CtxCells(Rerank(c, d)) == CtxCells(c)
    ensures BalancedCtx(Rerank(c, d), h) <==> BalancedCtx(c, h)
    ensures PlugHeight(Rerank(c, d), h) == PlugHeight(c, h)
  {
    match c
    case Top =>
    case InLeft(up, n, k, rk, b, r) => RerankKeeps(up, d, 1 + Max(h, Height(r)));
    case InRight(up, l, n, k, rk, b) => RerankKeeps(up, d, 1 + Max(Height(l), h));
  }

  /** A hole that gains `d` nodes needs every left-going rank on its path changed by `d`. */
  lemma {:induction false} RerankRanked<R, K>(c: Ctx<R, K>, d: int, size: nat)
    requires RankedCtx(c, size) && size + d >= 0
    ensures RankedCtx(Rerank(c, d), size + d)
  {
    match c
    case Top =>
    case InLeft(up, n, k, rk, b, r) =>
      WrapAdd(size + 1, d);
      RerankRanked(up, d, size + 1 + Size(r));
    case InRight(up, l, n, k, rk, b) =>
      RerankRanked(up, d, Size(l) + 1 + size);
  }

  lemma {:induction false} RerankCompose<R, K>(inner: Ctx<R, K>, outer: Ctx<R, K>, d: int)
    ensures Rerank(Compose(inner, outer), d) == Compose(Rerank(inner, d), Rerank(outer, d))
  {
    if !inner.Top? { RerankCompose(inner.up, outer, d); }
  }

  /** Lowering and raising again is no change at all, whatever the ranks were. */
  lemma {:induction false} RerankUndo<R, K>(c: Ctx<R, K>)
    ensures Rerank(Rerank(c, -1), 1) == c
  {
    if !c.Top? {
      RerankUndo(c.up);
      WrapSub(c.rank, 1);
      WrapAdd(c.rank - 1, 1);
    }
  }

  // ---------------------------------------------------------------- insertion

  /** Insertion follows the path on which equal keys go left. */
  ghost predicate InsertPath<R, K>(c: Ctx<R, K>, cmp: (K, K) -> int, key: K) {
    match c
    case Top => true
    case InLeft(up, _, k, _, _, _) => cmp(key, k) < 1 && InsertPath(up, cmp, key)
    case InRight(up, _, _, k, _, _) => !(cmp(key, k) < 1) && InsertPath(up, cmp, key)
  }

  ghost function Single<R, K>(q: R, key: K): Tree<R, K> { Node(Leaf, q, key, 1, 0, Leaf) }

  /** The new node hung below `t`, ranks adjusted on the way, balance factors not yet. */
  ghost function Hang<R, K>(t: Tree<R, K>, cmp: (K, K) -> int, key: K, q: R): (h: Tree<R, K>)
    ensures h.Node? && h.ref == if t.Leaf? then q else t.ref
  {
    if t.Leaf? then Single(q, key)
    else if cmp(key, t.key) < 1 then
      Node(Hang(t.left, cmp, key, q), t.ref, t.key, Wrap(t.rank + 1), t.bal, t.right)
    else
      Node(t.left, t.ref, t.key, t.rank, t.bal, Hang(t.right, cmp, key, q))
  }

  /** As `Hang`, with every balance factor on the path set towards the new node. */
  ghost function Grow<R, K>(t: Tree<R, K>, cmp: (K, K) -> int, key: K, q: R): (g: Tree<R, K>)
    ensures g.Node? && g.ref == if t.Leaf? then q else t.ref
  {
    if t.Leaf? then Single(q, key)
    else if cmp(key, t.key) < 1 then
      Node(Grow(t.left, cmp, key, q), t.ref, t.key, Wrap(t.rank + 1), -1, t.right)
    else
      Node(t.left, t.ref, t.key, t.rank, 1, Grow(t.right, cmp, key, q))
  }

  /** Every node on the search path has balance factor zero. */
  ghost predicate FlatPath<R, K>(t: Tree<R, K>, cmp: (K, K) -> int, key: K) {
    t.Node? ==>
      t.bal == 0 && FlatPath(if cmp(key, t.key) < 1 then t.left else t.right, cmp, key)
  }

  lemma {:induction false} HangPlug<R, K>(c: Ctx<R, K>, t: Tree<R, K>, cmp: (K, K) -> int, key: K, q: R)
    requires InsertPath(c, cmp, key)
    ensures Hang(Plug(c, t), cmp, key, q) == Plug(Rerank(c, 1), Hang(t, cmp, key, q))
  {
    match c
    case Top =>
    case InLeft(up, n, k, rk, b, r) => HangPlug(up, Node(t, n, k, rk, b, r), cmp, key, q);
    case InRight(up, l, n, k, rk, b) => HangPlug(up, Node(l, n, k, rk, b, t), cmp, key, q);
  }

  /** Every node on the path but the outermost has balance factor zero. */
  ghost predicate FlatCtx<R, K>(c: Ctx<R, K>) {
    c.Top? || (FlatCtx(c.up) && (c.up.Top? || c.bal == 0))
  }

  lemma {:induction false} FlatPlug<R, K>(c: Ctx<R, K>, t: Tree<R, K>, cmp: (K, K) -> int, key: K)
    requires InsertPath(c, cmp, key) && FlatCtx(c) && !c.Top? && FlatPath(t, cmp, key)
    ensures Plug(c, t).Node? && FlatBelow(Plug(c, t), cmp, key)
  {
    match c
    case InLeft(up, n, k, rk, b, r) =>
      if !up.Top? { FlatPlug(up, Node(t, n, k, rk, b, r), cmp, key); }
    case InRight(up, l, n, k, rk, b) =>
      if !up.Top? { FlatPlug(up, Node(l, n, k, rk, b, t), cmp, key); }
  }

  lemma {:induction false} InsertPathCompose<R, K>(inner: Ctx<R, K>, outer: Ctx<R, K>, cmp: (K, K) -> int, key: K)
    requires InsertPath(inner, cmp, key) && InsertPath(outer, cmp, key)
    ensures InsertPath(Compose(inner, outer), cmp, key)
  {
    if !inner.Top? { InsertPathCompose(inner.up, outer, cmp, key); }
  }

  /**
  Where the first walk of an insertion stands: it looks at `sub`, reached through `inner` from the
  pivot `piv`, the last node on the way (or the root) that was not level; `outer` leads to the pivot.
  */
  ghost predicate Trail<R, K>(whole: Tree<R, K>, outer: Ctx<R, K>, piv: Tree<R, K>, inner: Ctx<R, K>, sub: Tree<R, K>,
                              cmp: (K, K) -> int, key: K)
  {
    && sub.Node? && piv.Node?
    && Plug(inner, sub) == piv && Plug(outer, piv) == whole
    && InsertPath(inner, cmp, key) && InsertPath(outer, cmp, key)
    && FlatCtx(inner) && (inner.Top? || sub.bal == 0) && (piv.bal == 0 ==> outer.Top?)
  }

  ghost function Ahead<R, K>(inner: Ctx<R, K>, sub: Tree<R, K>, cmp: (K, K) -> int, key: K): Ctx<R, K>
    requires sub.Node?
  {
    if cmp(key, sub.key) < 1 then InLeft(inner, sub.ref, sub.key, sub.rank, sub.bal, sub.right)
    else InRight(inner, sub.left, sub.ref, sub.key, sub.rank, sub.bal)
  }

  ghost function Below<R, K>(sub: Tree<R, K>, cmp: (K, K) -> int, key: K): Tree<R, K>
    requires sub.Node?
  {
    if cmp(key, sub.key) < 1 then sub.left else sub.right
  }

  ghost function Side<R, K>(s: Tree<R, K>, cmp: (K, K) -> int, key: K): (a: int)
    requires s.Node?
    ensures a == -1 || a == 1
  {
    if cmp(key, s.key) < 1 then -1 else 1
  }

  /** One step of the walk: an unbalanced node becomes the new pivot. */
  lemma {:induction false} TrailStep<R, K>(whole: Tree<R, K>, outer: Ctx<R, K>, piv: Tree<R, K>, inner: Ctx<R, K>,
                                           sub: Tree<R, K>, cmp: (K, K) -> int, key: K)
    requires Trail(whole, outer, piv, inner, sub, cmp, key)
    ensures var c, n := Ahead(inner, sub, cmp, key), Below(sub, cmp, key);
      && (n.Node? && n.bal == 0 ==> Trail(whole, outer, piv, c, n, cmp, key))
      && (n.Node? && n.bal != 0 ==> Trail(whole, Compose(c, outer), n, Top, n, cmp, key))
      && Compose(c, outer) == Ahead(Compose(inner, outer), sub, cmp, key)
  {
    var c, n := Ahead(inner, sub, cmp, key), Below(sub, cmp, key);
    PlugCompose(c, outer, n);
    InsertPathCompose(c, outer, cmp, key);
  }

  /** The end of the walk: the new node hangs below the pivot, every node between them level. */
  lemma {:induction false} TrailEnd<R, K>(whole: Tree<R, K>, outer: Ctx<R, K>, piv: Tree<R, K>, inner: Ctx<R, K>,
                                          sub: Tree<R, K>, cmp: (K, K) -> int, key: K, q: R)
    requires Trail(whole, outer, piv, inner, sub, cmp, key) && Below(sub, cmp, key).Leaf?
    ensures FlatBelow(piv, cmp, key)
    ensures Hang(piv, cmp, key, q) == Plug(Rerank(Ahead(inner, sub, cmp, key), 1), Single(q, key))
  {
    var c := Ahead(inner, sub, cmp, key);
    FlatPlug(c, Leaf, cmp, key);
    HangPlug(c, Leaf, cmp, key, q);
  }

  /** The position the insertion path leads to. */
  ghost function Slot<R, K>(t: Tree<R, K>, cmp: (K, K) -> int, key: K): (i: nat)
    ensures i <= Size(t)
  {
    if t.Leaf? then 0
    else if cmp(key, t.key) < 1 then Slot(t.left, cmp, key)
    else Size(t.left) + 1 + Slot(t.right, cmp, key)
  }

  lemma {:induction false} HangKeys<R, K>(t: Tree<R, K>, cmp: (K, K) -> int, key: K, q: R)
    ensures Keys(Hang(t, cmp, key, q)) == InsertAt(Keys(t), Slot(t, cmp, key), key)
  {
    if t.Leaf? {
    } else if cmp(key, t.key) < 1 {
      HangKeys(t.left, cmp, key, q);
      var i, l := Slot(t.left, cmp, key), Keys(t.left);
      assert l + [t.key] + Keys(t.right) == l[..i] + (l[i..] + [t.key] + Keys(t.right));
    } else {
      HangKeys(t.right, cmp, key, q);
      var i, r := Slot(t.right, cmp, key), Keys(t.right);
      var pre := Keys(t.left) + [t.key];
      assert pre + r == (pre + r[..i]) + r[i..];
      assert pre + (r[..i] + [key] + r[i..]) == (pre + r[..i]) + [key] + r[i..];
    }
  }

  lemma {:induction false} HangRanked<R, K>(t: Tree<R, K>, cmp: (K, K) -> int, key: K, q: R)
    ensures Size(Hang(t, cmp, key, q)) == Size(t) + 1
    ensures Ranked(t) ==> Ranked(Hang(t, cmp, key, q))
  {
    if t.Leaf? {
    } else if cmp(key, t.key) < 1 {
      HangRanked(t.left, cmp, key, q);
      WrapAdd(Size(t.left) + 1, 1);
    } else {
      HangRanked(t.right, cmp, key, q);
    }
  }

  /** Setting balance factors changes neither keys nor ranks. */
  lemma {:induction false} GrowIsHang<R, K>(t: Tree<R, K>, cmp: (K, K) -> int, key: K, q: R)
    ensures Keys(Grow(t, cmp, key, q)) == Keys(Hang(t, cmp, key, q))
  {
    if t.Leaf? {
    } else if cmp(key, t.key) < 1 {
      GrowIsHang(t.left, cmp, key, q);
    } else {
      GrowIsHang(t.right, cmp, key, q);
    }
  }

  lemma {:induction false} GrowRanked<R, K>(t: Tree<R, K>, cmp: (K, K) -> int, key: K, q: R)
    ensures Ranked(Grow(t, cmp, key, q)) <==> Ranked(Hang(t, cmp, key, q))
    ensures Size(Grow(t, cmp, key, q)) == Size(Hang(t, cmp, key, q))
  {
    if t.Leaf? {
    } else if cmp(key, t.key) < 1 {
      GrowRanked(t.left, cmp, key, q);
    } else {
      GrowRanked(t.right, cmp, key, q);
    }
  }

  lemma {:induction false} GrowCells<R, K>(t: Tree<R, K>, cmp: (K, K) -> int, key: K, q: R)
    ensures Cells(Grow(t, cmp, key, q)) == Cells(t) + {q}
  {
    if t.Node? {
      GrowCells(t.left, cmp, key, q);
      GrowCells(t.right, cmp, key, q);
    }
  }

  /** Along a flat path every subtree, and so the whole, grows by exactly one level. */
  lemma {:induction false} GrowBalanced<R, K>(t: Tree<R, K>, cmp: (K, K) -> int, key: K, q: R)
    requires Balanced(t) && FlatPath(t, cmp, key)
    ensures Balanced(Grow(t, cmp, key, q))
    ensures Height(Grow(t, cmp, key, q)) == Height(t) + 1
    ensures Grow(t, cmp, key, q).bal == 0 <==> t.Leaf?
  {
    if t.Leaf? {
    } else if cmp(key, t.key) < 1 {
      GrowBalanced(t.left, cmp, key, q);
    } else {
      GrowBalanced(t.right, cmp, key, q);
    }
  }

  /** The pivot `s` after the new node has been hung below it and the path beneath it adjusted. */
  ghost function Pivot<R, K>(s: Tree<R, K>, cmp: (K, K) -> int, key: K, q: R): (p: Tree<R, K>)
    requires s.Node?
    ensures p.Node? && p.ref == s.ref && p.key == s.key && p.bal == s.bal
  {
    if cmp(key, s.key) < 1 then
      Node(Grow(s.left, cmp, key, q), s.ref, s.key, Wrap(s.rank + 1), s.bal, s.right)
    else
      Node(s.left, s.ref, s.key, s.rank, s.bal, Grow(s.right, cmp, key, q))
  }

  ghost predicate CanSettle<R, K>(p: Tree<R, K>, a: int) {
    && p.Node? && (a == -1 || a == 1)
    && (p.bal == a == -1 ==> p.left.Node? && (p.left.bal != -1 ==> p.left.right.Node?))
    && (p.bal == a == 1 ==> p.right.Node? && (p.right.bal != 1 ==> p.right.left.Node?))
  }

  /** The balancing act: what becomes of a pivot whose `a` side has grown by one level. */
  ghost function Settle<R, K>(p: Tree<R, K>, a: int): Tree<R, K>
    requires CanSettle(p, a)
  {
    if p.bal == 0 then p.(bal := a)
    else if p.bal != a then p.(bal := 0)
    else if a == -1 then
      if p.left.bal == -1 then RotateRight(p, 0, 0) else DoubleRight(p)
    else
      if p.right.bal == 1 then RotateLeft(p, 0, 0) else DoubleLeft(p)
  }

  ghost predicate FlatBelow<R, K>(s: Tree<R, K>, cmp: (K, K) -> int, key: K)
    requires s.Node?
  {
    FlatPath(if cmp(key, s.key) < 1 then s.left else s.right, cmp, key)
  }

  /** The grown child of a pivot leaning towards the insertion is itself leaning. */
  lemma {:induction false} PivotLeans<R, K>(s: Tree<R, K>, cmp: (K, K) -> int, key: K, q: R)
    requires s.Node? && Balanced(s) && FlatBelow(s, cmp, key)
    ensures var p, a := Pivot(s, cmp, key, q), Side(s, cmp, key);
      && CanSettle(p, a)
      && (p.bal == a == -1 ==> Balanced(p.left) && p.left.bal != 0 && Height(p.left) == Height(p.right) + 2)
      && (p.bal == a == 1 ==> Balanced(p.right) && p.right.bal != 0 && Height(p.right) == Height(p.left) + 2)
  {
    if cmp(key, s.key) < 1 {
      GrowBalanced(s.left, cmp, key, q);
    } else {
      GrowBalanced(s.right, cmp, key, q);
    }
  }

  /** A single rotation at a pivot leaning two levels over restores balance and loses a level. */
  lemma {:induction false} SettleSingle<R, K>(p: Tree<R, K>)
    requires p.Node? && Balanced(p.left) && Balanced(p.right)
    ensures p.left.Node? && p.left.bal == -1 && Height(p.left) == Height(p.right) + 2 ==>
      Balanced(RotateRight(p, 0, 0)) && Height(RotateRight(p, 0, 0)) == Height(p.left)
    ensures p.right.Node? && p.right.bal == 1 && Height(p.right) == Height(p.left) + 2 ==>
      Balanced(RotateLeft(p, 0, 0)) && Height(RotateLeft(p, 0, 0)) == Height(p.right)
  {
    if p.left.Node? && p.left.bal == -1 && Height(p.left) == Height(p.right) + 2 {
      assert Balanced(RotateRight(p, 0, 0).right);
    }
    if p.right.Node? && p.right.bal == 1 && Height(p.right) == Height(p.left) + 2 {
      assert Balanced(RotateLeft(p, 0, 0).left);
    }
  }

  /** So does a double rotation when the child leans the other way. */
  lemma {:induction false} SettleDouble<R, K>(p: Tree<R, K>)
    requires p.Node? && Balanced(p.left) && Balanced(p.right)
    ensures p.left.Node? && p.left.bal == 1 && p.left.right.Node? && Height(p.left) == Height(p.right) + 2 ==>
      Balanced(DoubleRight(p)) && Height(DoubleRight(p)) == Height(p.left)
    ensures p.right.Node? && p.right.bal == -1 && p.right.left.Node? && Height(p.right) == Height(p.left) + 2 ==>
      Balanced(DoubleLeft(p)) && Height(DoubleLeft(p)) == Height(p.right)
  {
    if p.left.Node? && p.left.bal == 1 && p.left.right.Node? && Height(p.left) == Height(p.right) + 2 {
      var m, d := p.left.right, DoubleRight(p);
      assert Balanced(m) && Height(m) == Height(p.right) + 1;
      assert Balanced(d.left) && Height(d.left) == Height(m);
      assert Balanced(d.right) && Height(d.right) == Height(m);
    }
    if p.right.Node? && p.right.bal == -1 && p.right.left.Node? && Height(p.right) == Height(p.left) + 2 {
      var m, d := p.right.left, DoubleLeft(p);
      assert Balanced(m) && Height(m) == Height(p.left) + 1;
      assert Balanced(d.left) && Height(d.left) == Height(m);
      assert Balanced(d.right) && Height(d.right) == Height(m);
    }
  }

  /** The balancing act restores the pivot's old height unless the pivot was level. */
  lemma {:induction false} SettleBalanced<R, K>(s: Tree<R, K>, cmp: (K, K) -> int, key: K, q: R)
    requires s.Node? && Balanced(s) && FlatBelow(s, cmp, key)
    requires CanSettle(Pivot(s, cmp, key, q), Side(s, cmp, key))
    ensures var f := Settle(Pivot(s, cmp, key, q), Side(s, cmp, key));
      Balanced(f) && Height(f) == Height(s) + (if s.bal == 0 then 1 else 0)
  {
    var p := Pivot(s, cmp, key, q);
    PivotLeans(s, cmp, key, q);
    if cmp(key, s.key) < 1 {
      GrowBalanced(s.left, cmp, key, q);
    } else {
      GrowBalanced(s.right, cmp, key, q);
    }
    if p.bal == Side(s, cmp, key) {
      SettleSingle(p);
      SettleDouble(p);
    }
  }

  /** Neither the adjusted pivot nor the balancing act touches order, cells or right ranks. */
  lemma {:induction false} PivotKeeps<R, K>(s: Tree<R, K>, cmp: (K, K) -> int, key: K, q: R)
    requires s.Node?
    ensures Keys(Pivot(s, cmp, key, q)) == InsertAt(Keys(s), Slot(s, cmp, key), key)
    ensures Ranked(s) ==> Ranked(Pivot(s, cmp, key, q))
  {
    var p, h := Pivot(s, cmp, key, q), Hang(s, cmp, key, q);
    GrowIsHang(s.left, cmp, key, q);
    GrowIsHang(s.right, cmp, key, q);
    GrowRanked(s.left, cmp, key, q);
    GrowRanked(s.right, cmp, key, q);
    assert Keys(p) == Keys(h);
    assert Ranked(p) <==> Ranked(h);
    HangKeys(s, cmp, key, q);
    HangRanked(s, cmp, key, q);
  }

  lemma {:induction false} PivotCells<R, K>(s: Tree<R, K>, cmp: (K, K) -> int, key: K, q: R)
    requires s.Node?
    ensures Cells(Pivot(s, cmp, key, q)) == Cells(s) + {q}
  {
    GrowCells(s.left, cmp, key, q);
    GrowCells(s.right, cmp, key, q);
  }

  lemma {:induction false} SettleKeeps<R, K>(p: Tree<R, K>, a: int)
    requires CanSettle(p, a)
    ensures Keys(Settle(p, a)) == Keys(p)
    ensures Ranked(p) ==> Ranked(Settle(p, a))
  {
    if p.bal == a {
      RotationKeys(p, 0, 0);
      DoubleRotationKeys(p);
      if Ranked(p) {
        if a == -1 {
          if p.left.bal == -1 { RotationRanked(p, 0, 0); } else { DoubleRightRanked(p); }
        } else {
          if p.right.bal == 1 { RotationRanked(p, 0, 0); } else { DoubleLeftRanked(p); }
        }
      }
    }
  }

  /** The path's slot is the reference position: before the first entry not less than the key. */
  lemma {:induction false} SlotIsCountLess<R, K(!new)>(t: Tree<R, K>, cmp: (K, K) -> int, key: K)
    requires TotalPreorder(cmp) && Sorted(cmp, Keys(t))
    ensures Slot(t, cmp, key) == CountLess(cmp, Keys(t), key)
  {
    SlotSplits(t, cmp, key);
    var s, i, n := Keys(t), Slot(t, cmp, key), CountLess(cmp, Keys(t), key);
    assert i < |s| ==> cmp(key, s[i]) <= 0;
    assert n < |s| ==> cmp(key, s[n]) <= 0;
  }

  lemma {:induction false} SortedParts<R, K>(t: Tree<R, K>, cmp: (K, K) -> int)
    requires t.Node? && Sorted(cmp, Keys(t))
    ensures Sorted(cmp, Keys(t.left)) && Sorted(cmp, Keys(t.right))
    ensures forall j :: 0 <= j < Size(t.left) ==> cmp(Keys(t.left)[j], t.key) <= 0
    ensures forall j :: 0 <= j < Size(t.right) ==> cmp(t.key, Keys(t.right)[j]) <= 0
  {
    var l, r, s := Keys(t.left), Keys(t.right), Keys(t);
    assert forall j :: 0 <= j < |l| ==> s[j] == l[j];
    assert s[|l|] == t.key;
    assert forall j :: 0 <= j < |r| ==> r[j] == s[|l| + 1 + j];
  }

  lemma {:induction false} SlotSplits<R, K(!new)>(t: Tree<R, K>, cmp: (K, K) -> int, key: K)
    requires TotalPreorder(cmp) && Sorted(cmp, Keys(t))
    ensures forall j :: 0 <= j < Slot(t, cmp, key) ==> cmp(key, Keys(t)[j]) > 0
    ensures forall j :: Slot(t, cmp, key) <= j < Size(t) ==> cmp(key, Keys(t)[j]) <= 0
  {
    if t.Node? {
      SortedParts(t, cmp);
      var l, r, s := Keys(t.left), Keys(t.right), Keys(t);
      assert forall j :: 0 <= j < |s| ==>
        s[j] == if j < |l| then l[j] else if j == |l| then t.key else r[j - |l| - 1];
      if cmp(key, t.key) < 1 {
        SlotSplits(t.left, cmp, key);
        forall j | 0 <= j < |r| ensures cmp(key, r[j]) <= 0 {
          Transitive(cmp, key, t.key, r[j]);
        }
      } else {
        SlotSplits(t.right, cmp, key);
        forall j | 0 <= j < |l| ensures cmp(key, l[j]) > 0 {
          assert Chain(key, l[j], t.key);
        }
      }
    }
  }

  lemma {:induction false} SlotPlug<R, K>(c: Ctx<R, K>, t: Tree<R, K>, cmp: (K, K) -> int, key: K)
    requires InsertPath(c, cmp, key)
    ensures Slot(Plug(c, t), cmp, key) == |Before(c)| + Slot(t, cmp, key)
  {
    match c
    case Top =>
    case InLeft(up, n, k, rk, b, r) => SlotPlug(up, Node(t, n, k, rk, b, r), cmp, key);
    case InRight(up, l, n, k, rk, b) => SlotPlug(up, Node(l, n, k, rk, b, t), cmp, key);
  }

  /** `f` is what an insertion may put in the place of the pivot: same height, or one more for a level one. */
  ghost predicate Repaired<R, K>(piv: Tree<R, K>, f: Tree<R, K>, cmp: (K, K) -> int, key: K) {
    && piv.Node? && Balanced(f) && Height(f) == Height(piv) + (if piv.bal == 0 then 1 else 0)
    && Keys(f) == InsertAt(Keys(piv), Slot(piv, cmp, key), key)
    && (Ranked(piv) ==> Ranked(f))
  }

  lemma {:induction false} SettleRepairs<R, K>(piv: Tree<R, K>, cmp: (K, K) -> int, key: K, q: R)
    requires piv.Node? && Balanced(piv) && FlatBelow(piv, cmp, key)
    ensures CanSettle(Pivot(piv, cmp, key, q), Side(piv, cmp, key))
    ensures Repaired(piv, Settle(Pivot(piv, cmp, key, q), Side(piv, cmp, key)), cmp, key)
  {
    PivotLeans(piv, cmp, key, q);
    SettleBalanced(piv, cmp, key, q);
    PivotKeeps(piv, cmp, key, q);
    SettleKeeps(Pivot(piv, cmp, key, q), Side(piv, cmp, key));
  }

  /** Repairing the pivot repairs the tree: height, balance and rank hold everywhere again. */
  lemma {:induction false} InsertedBalanced<R, K>(outer: Ctx<R, K>, piv: Tree<R, K>, f: Tree<R, K>,
                                                  cmp: (K, K) -> int, key: K)
    requires Repaired(piv, f, cmp, key) && (piv.bal == 0 ==> outer.Top?)
    requires Balanced(Plug(outer, piv))
    ensures Balanced(Plug(Rerank(outer, 1), f))
    ensures Height(Plug(Rerank(outer, 1), f)) == Height(Plug(outer, piv)) + (if piv.bal == 0 then 1 else 0)
  {
    PlugBalanced(outer, piv);
    PlugBalanced(Rerank(outer, 1), f);
    RerankKeeps(outer, 1, Height(piv));
  }

  lemma {:induction false} InsertedRanked<R, K>(outer: Ctx<R, K>, piv: Tree<R, K>, f: Tree<R, K>,
                                                cmp: (K, K) -> int, key: K)
    requires Repaired(piv, f, cmp, key) && Ranked(Plug(outer, piv))
    ensures Ranked(Plug(Rerank(outer, 1), f))
  {
    PlugRanked(outer, piv);
    PlugRanked(Rerank(outer, 1), f);
    assert Size(f) == |Keys(f)| == Size(piv) + 1;
    RerankRanked(outer, 1, Size(piv));
  }

  lemma {:induction false} InsertedKeys<R, K>(outer: Ctx<R, K>, piv: Tree<R, K>, f: Tree<R, K>,
                                              cmp: (K, K) -> int, key: K)
    requires Repaired(piv, f, cmp, key) && InsertPath(outer, cmp, key)
    ensures var t := Plug(outer, piv);
      Keys(Plug(Rerank(outer, 1), f)) == InsertAt(Keys(t), Slot(t, cmp, key), key)
  {
    SlotPlug(outer, piv, cmp, key);
    PlugKeys(outer, piv);
    PlugKeys(Rerank(outer, 1), f);
    RerankKeeps(outer, 1, 0);
    var t, i := Plug(outer, piv), Slot(piv, cmp, key);
    InsertAtMiddle(Before(outer), Keys(piv), After(outer), i, key, Keys(f), Keys(t), Slot(t, cmp, key));
  }

  /** What an insertion makes of a whole tree `t`; `grown` if it became a level taller. */
  ghost predicate Inserted<R, K>(t: Tree<R, K>, new': Tree<R, K>, cmp: (K, K) -> int, key: K, grown: bool) {
    && Balanced(new') && Height(new') == Height(t) + (if grown then 1 else 0)
    && Keys(new') == InsertAt(Keys(t), Slot(t, cmp, key), key)
    && (Ranked(t) ==> Ranked(new'))
  }

  lemma {:induction false} InsertedWhole<R, K>(outer: Ctx<R, K>, piv: Tree<R, K>, f: Tree<R, K>,
                                               cmp: (K, K) -> int, key: K)
    requires Repaired(piv, f, cmp, key) && (piv.bal == 0 ==> outer.Top?)
    requires InsertPath(outer, cmp, key) && Balanced(Plug(outer, piv))
    ensures Inserted(Plug(outer, piv), Plug(Rerank(outer, 1), f), cmp, key, piv.bal == 0)
  {
    InsertedBalanced(outer, piv, f, cmp, key);
    InsertedKeys(outer, piv, f, cmp, key);
    if Ranked(Plug(outer, piv)) {
      InsertedRanked(outer, piv, f, cmp, key);
    }
  }

  lemma {:induction false} SettleCells<R, K>(p: Tree<R, K>, a: int)
    requires CanSettle(p, a)
    ensures Cells(Settle(p, a)) == Cells(p)
  {
    if p.bal == a && a == -1 && p.left.bal != -1 {
      DoubleRightCells(p);
    } else if p.bal == a && a == 1 && p.right.bal != 1 {
      DoubleLeftCells(p);
    }
  }

  lemma InsertAtMiddle<K>(a: seq<K>, b: seq<K>, c: seq<K>, i: nat, key: K, b': seq<K>, whole: seq<K>, slot: nat)
    requires i <= |b| && b' == InsertAt(b, i, key) && whole == a + b + c && slot == |a| + i
    ensures a + b' + c == InsertAt(whole, slot, key)
  {}

  // ---------------------------------------------------------------- search and deletion

  /** Searching goes left of a larger entry, right of a smaller one, and stops at an equal one. */
  ghost predicate SearchPath<R, K>(c: Ctx<R, K>, cmp: (K, K) -> int, key: K) {
    match c
    case Top => true
    case InLeft(up, _, k, _, _, _) => cmp(key, k) < 0 && SearchPath(up, cmp, key)
    case InRight(up, _, _, k, _, _) => cmp(key, k) > 0 && SearchPath(up, cmp, key)
  }

  ghost function SearchAhead<R, K>(c: Ctx<R, K>, t: Tree<R, K>, cmp: (K, K) -> int, key: K): Ctx<R, K>
    requires t.Node?
  {
    if cmp(key, t.key) < 0 then InLeft(c, t.ref, t.key, t.rank, t.bal, t.right)
    else InRight(c, t.left, t.ref, t.key, t.rank, t.bal)
  }

  ghost function SearchBelow<R, K>(t: Tree<R, K>, cmp: (K, K) -> int, key: K): Tree<R, K>
    requires t.Node?
  {
    if cmp(key, t.key) < 0 then t.left else t.right
  }

  ghost predicate Finds<R, K>(t: Tree<R, K>, cmp: (K, K) -> int, key: K) {
    t.Node? &&
      (cmp(key, t.key) == 0 || Finds(if cmp(key, t.key) < 0 then t.left else t.right, cmp, key))
  }

  ghost predicate Present<K>(cmp: (K, K) -> int, s: seq<K>, key: K) {
    exists i :: 0 <= i < |s| && cmp(key, s[i]) == 0
  }

  /** In an ordered tree the search finds an equal entry exactly when there is one. */
  lemma {:induction false} FindsIffPresent<R, K(!new)>(t: Tree<R, K>, cmp: (K, K) -> int, key: K)
    requires TotalPreorder(cmp) && Sorted(cmp, Keys(t))
    ensures Finds(t, cmp, key) <==> Present(cmp, Keys(t), key)
  {
    if t.Node? {
      SortedParts(t, cmp);
      PresentParts(cmp, Keys(t.left), t.key, Keys(t.right), key);
      if cmp(key, t.key) < 0 {
        FindsIffPresent(t.left, cmp, key);
        AbsentAbove(cmp, Keys(t.right), t.key, key);
      } else if cmp(key, t.key) > 0 {
        FindsIffPresent(t.right, cmp, key);
        AbsentBelow(cmp, Keys(t.left), t.key, key);
      }
    }
  }

  lemma PresentParts<K>(cmp: (K, K) -> int, l: seq<K>, k: K, r: seq<K>, key: K)
    ensures Present(cmp, l + [k] + r, key) <==> Present(cmp, l, key) || cmp(key, k) == 0 || Present(cmp, r, key)
  {
    var s := l + [k] + r;
    if i :| 0 <= i < |l| && cmp(key, l[i]) == 0 { assert s[i] == l[i]; }
    if cmp(key, k) == 0 { assert s[|l|] == k; }
    if i :| 0 <= i < |r| && cmp(key, r[i]) == 0 { assert s[|l| + 1 + i] == r[i]; }
  }

  lemma AbsentAbove<K(!new)>(cmp: (K, K) -> int, r: seq<K>, k: K, key: K)
    requires TotalPreorder(cmp) && cmp(key, k) < 0
    requires forall j :: 0 <= j < |r| ==> cmp(k, r[j]) <= 0
    ensures !Present(cmp, r, key)
  {
    forall j | 0 <= j < |r| ensures cmp(key, r[j]) != 0 {
      assert Chain(k, r[j], key);
    }
  }

  lemma AbsentBelow<K(!new)>(cmp: (K, K) -> int, l: seq<K>, k: K, key: K)
    requires TotalPreorder(cmp) && cmp(key, k) > 0
    requires forall j :: 0 <= j < |l| ==> cmp(l[j], k) <= 0
    ensures !Present(cmp, l, key)
  {
    forall j | 0 <= j < |l| ensures cmp(key, l[j]) != 0 {
      assert Chain(key, l[j], k);
    }
  }

  lemma {:induction false} FindsPlug<R, K>(c: Ctx<R, K>, t: Tree<R, K>, cmp: (K, K) -> int, key: K)
    requires SearchPath(c, cmp, key)
    ensures Finds(Plug(c, t), cmp, key) <==> Finds(t, cmp, key)
  {
    match c
    case Top =>
    case InLeft(up, n, k, rk, b, r) => FindsPlug(up, Node(t, n, k, rk, b, r), cmp, key);
    case InRight(up, l, n, k, rk, b) => FindsPlug(up, Node(l, n, k, rk, b, t), cmp, key);
  }

  /** What a delete that does not find its key leaves behind. */
  ghost function AfterMiss<R, K>(t: Tree<R, K>, cmp: (K, K) -> int, key: K): Tree<R, K> {
    if t.Leaf? || cmp(key, t.key) == 0 then t
    else if cmp(key, t.key) < 0 then
      if t.left.Leaf? then t else t.(left := AfterMiss(t.left, cmp, key))
    else
      if t.right.Leaf? then t.(rank := Wrap(t.rank + 1)) else t.(right := AfterMiss(t.right, cmp, key))
  }

  /** The search for an absent key runs off the tree at a missing left child (or the tree is empty). */
  ghost predicate MissesLeft<R, K>(t: Tree<R, K>, cmp: (K, K) -> int, key: K) {
    t.Node? ==>
      if cmp(key, t.key) < 0 then MissesLeft(t.left, cmp, key)
      else t.right.Node? && MissesLeft(t.right, cmp, key)
  }

  lemma {:induction false} AfterMissKeys<R, K>(t: Tree<R, K>, cmp: (K, K) -> int, key: K)
    ensures Keys(AfterMiss(t, cmp, key)) == Keys(t)
  {
    if t.Node? {
      AfterMissKeys(t.left, cmp, key);
      AfterMissKeys(t.right, cmp, key);
    }
  }

  lemma {:induction false} MissCells<R, K>(t: Tree<R, K>, cmp: (K, K) -> int, key: K)
    ensures Cells(AfterMiss(t, cmp, key)) == Cells(t)
  {
    if t.Node? {
      MissCells(t.left, cmp, key);
      MissCells(t.right, cmp, key);
    }
  }

  lemma {:induction false} AfterMissKeeps<R, K>(t: Tree<R, K>, cmp: (K, K) -> int, key: K)
    ensures Size(AfterMiss(t, cmp, key)) == Size(t)
    ensures Height(AfterMiss(t, cmp, key)) == Height(t)
    ensures Balanced(AfterMiss(t, cmp, key)) <==> Balanced(t)
  {
    if t.Node? {
      AfterMissKeeps(t.left, cmp, key);
      AfterMissKeeps(t.right, cmp, key);
    }
  }

  lemma {:induction false} AfterMissPlug<R, K>(c: Ctx<R, K>, t: Tree<R, K>, cmp: (K, K) -> int, key: K)
    requires SearchPath(c, cmp, key) && t.Node?
    ensures AfterMiss(Plug(c, t), cmp, key) == Plug(c, AfterMiss(t, cmp, key))
  {
    match c
    case Top =>
    case InLeft(up, n, k, rk, b, r) => AfterMissPlug(up, Node(t, n, k, rk, b, r), cmp, key);
    case InRight(up, l, n, k, rk, b) => AfterMissPlug(up, Node(l, n, k, rk, b, t), cmp, key);
  }

  ghost function RaiseAt(s: seq<int>, i: nat): seq<int>
    requires i < |s|
  {
    s[i := Wrap(s[i] + 1)]
  }

  lemma RaiseInLeft(a: seq<int>, x: int, b: seq<int>, i: nat)
    requires i < |a|
    ensures RaiseAt(a + [x] + b, i) == RaiseAt(a, i) + [x] + b
  {}

  lemma RaiseInRight(a: seq<int>, x: int, b: seq<int>, i: nat)
    requires i < |b|
    ensures RaiseAt(a + [x] + b, |a| + 1 + i) == a + [x] + RaiseAt(b, i)
  {}

  lemma RaiseInMiddle(a: seq<int>, x: int, b: seq<int>)
    ensures RaiseAt(a + [x] + b, |a|) == a + [Wrap(x + 1)] + b
  {}

  /** A delete of an absent key that runs off to the left changes nothing at all. */
  lemma {:induction false} AfterMissLeft<R, K>(t: Tree<R, K>, cmp: (K, K) -> int, key: K)
    requires !Finds(t, cmp, key) && MissesLeft(t, cmp, key)
    ensures AfterMiss(t, cmp, key) == t
  {
    if t.Node? {
      if cmp(key, t.key) < 0 {
        AfterMissLeft(t.left, cmp, key);
      } else {
        AfterMissLeft(t.right, cmp, key);
      }
    }
  }

  /** One that runs off to the right changes one rank: that of the last entry smaller than the key. */
  lemma {:induction false} AfterMissRight<R, K>(t: Tree<R, K>, cmp: (K, K) -> int, key: K)
    requires !Finds(t, cmp, key) && !MissesLeft(t, cmp, key)
    ensures 0 < Slot(t, cmp, key) && Ranks(AfterMiss(t, cmp, key)) == RaiseAt(Ranks(t), Slot(t, cmp, key) - 1)
  {
    if cmp(key, t.key) < 0 {
      AfterMissRight(t.left, cmp, key);
      RaisedLeft(t, AfterMiss(t.left, cmp, key), Slot(t.left, cmp, key) - 1);
    } else if t.right.Node? {
      AfterMissRight(t.right, cmp, key);
      RaisedRight(t, AfterMiss(t.right, cmp, key), Slot(t.right, cmp, key) - 1);
    } else {
      RaisedHere(t);
    }
  }

  lemma RaisedHere<R, K>(t: Tree<R, K>)
    requires t.Node?
    ensures Ranks(t.(rank := Wrap(t.rank + 1))) == RaiseAt(Ranks(t), Size(t.left))
  {
    RaiseInMiddle(Ranks(t.left), t.rank, Ranks(t.right));
  }

  lemma RaisedLeft<R, K>(t: Tree<R, K>, l: Tree<R, K>, i: nat)
    requires t.Node? && i < Size(t.left) && Ranks(l) == RaiseAt(Ranks(t.left), i)
    ensures Ranks(t.(left := l)) == RaiseAt(Ranks(t), i)
  {
    RaiseInLeft(Ranks(t.left), t.rank, Ranks(t.right), i);
  }

  lemma RaisedRight<R, K>(t: Tree<R, K>, r: Tree<R, K>, i: nat)
    requires t.Node? && i < Size(t.right) && Ranks(r) == RaiseAt(Ranks(t.right), i)
    ensures Ranks(t.(right := r)) == RaiseAt(Ranks(t), Size(t.left) + 1 + i)
  {
    RaiseInRight(Ranks(t.left), t.rank, Ranks(t.right), i);
  }

  /** So it leaves right ranks right exactly when the search ran off to the left. */
  lemma {:induction false} AfterMissRanked<R, K>(t: Tree<R, K>, cmp: (K, K) -> int, key: K)
    requires !Finds(t, cmp, key) && Ranked(t)
    ensures Ranked(AfterMiss(t, cmp, key)) <==> MissesLeft(t, cmp, key)
  {
    if t.Node? {
      AfterMissKeeps(t.left, cmp, key);
      if cmp(key, t.key) < 0 {
        AfterMissRanked(t.left, cmp, key);
      } else if t.right.Node? {
        AfterMissRanked(t.right, cmp, key);
      }
    }
  }

  // ---------------------------------------------------------------- the climb after a deletion

  /**
  One step of the climb: `n` has lost a level on `side` (-1 left, +1 right) while its balance
  factor still records the old height.  The result is what takes the place of `n`.
  */
  ghost function Shrink<R, K>(n: Tree<R, K>, side: int): Tree<R, K>
    requires Shrinkable(n, side)
  {
    if n.bal == 0 then n.(bal := -side)
    else if n.bal == side then n.(bal := 0)
    else if side == -1 then
      if n.right.bal == 0 then RotateLeft(n, 1, -1)
      else if n.right.bal == 1 then RotateLeft(n, 0, 0)
      else DoubleLeft(n)
    else
      if n.left.bal == 0 then RotateRight(n, -1, 1)
      else if n.left.bal == -1 then RotateRight(n, 0, 0)
      else DoubleRight(n)
  }

  /** Whether the step leaves a subtree one level shorter than its parent's balance factor says. */
  ghost predicate StillShorter<R, K>(n: Tree<R, K>, side: int)
    requires Shrinkable(n, side)
  {
    n.bal != 0 && (n.bal == side || (if side == -1 then n.right else n.left).bal != 0)
  }

  ghost predicate Shrinkable<R, K>(n: Tree<R, K>, side: int) {
    && n.Node? && (side == -1 || side == 1) && -1 <= n.bal <= 1
    && (n.bal == 1 && side == -1 ==> n.right.Node? && (n.right.bal == -1 ==> n.right.left.Node?))
    && (n.bal == -1 && side == 1 ==> n.left.Node? && (n.left.bal == 1 ==> n.left.right.Node?))
    && (n.right.Node? ==> -1 <= n.right.bal <= 1) && (n.left.Node? ==> -1 <= n.left.bal <= 1)
  }

  /** The balance factor of `n` is right for a `side` subtree one level taller than it is. */
  ghost predicate LostLevel<R, K>(n: Tree<R, K>, side: int) {
    && n.Node? && (side == -1 || side == 1) && -1 <= n.bal <= 1
    && Balanced(n.left) && Balanced(n.right)
    && n.bal == Height(n.right) - Height(n.left) + side
  }

  ghost function OldHeight<R, K>(n: Tree<R, K>, side: int): nat
    requires n.Node?
  {
    if side == -1 then 1 + Max(Height(n.left) + 1, Height(n.right))
    else 1 + Max(Height(n.left), Height(n.right) + 1)
  }

  lemma LostLevelShrinkable<R, K>(n: Tree<R, K>, side: int)
    requires LostLevel(n, side)
    ensures Shrinkable(n, side)
  {}

  lemma {:induction false} ShrinkBalanced<R, K>(n: Tree<R, K>, side: int)
    requires LostLevel(n, side) && Shrinkable(n, side)
    ensures Balanced(Shrink(n, side))
    ensures Height(Shrink(n, side)) == OldHeight(n, side) - (if StillShorter(n, side) then 1 else 0)
  {
    SettleSingle(n);
    SettleDouble(n);
    if n.bal == 1 && side == -1 && n.right.bal == 0 { assert Balanced(RotateLeft(n, 1, -1).left); }
    if n.bal == -1 && side == 1 && n.left.bal == 0 { assert Balanced(RotateRight(n, -1, 1).right); }
  }

  lemma {:induction false} ShrinkKeys<R, K>(n: Tree<R, K>, side: int)
    requires Shrinkable(n, side)
    ensures Keys(Shrink(n, side)) == Keys(n)
  {
    if n.bal == -side {
      RotationKeys(n, 1, -1);
      RotationKeys(n, -1, 1);
      RotationKeys(n, 0, 0);
      DoubleRotationKeys(n);
    }
  }

  lemma {:induction false} ShrinkRanked<R, K>(n: Tree<R, K>, side: int)
    requires Shrinkable(n, side) && Ranked(n)
    ensures Ranked(Shrink(n, side))
  {
    if n.bal == -side {
      if side == -1 {
        if n.right.bal == -1 { DoubleLeftRanked(n); } else { RotationRanked(n, 1, -1); RotationRanked(n, 0, 0); }
      } else {
        if n.left.bal == 1 { DoubleRightRanked(n); } else { RotationRanked(n, -1, 1); RotationRanked(n, 0, 0); }
      }
    }
  }

  /**
  Where the climb stands: `t` hangs in `c`, one level shorter than `c` records if `shorter`;
  put together they hold `keys`, and `h` is the height the whole had before the deletion.
  */
  ghost predicate Climbing<R, K>(c: Ctx<R, K>, t: Tree<R, K>, shorter: bool, keys: seq<K>, ranked: bool, h: nat) {
    var was := Height(t) + (if shorter then 1 else 0);
    && Balanced(t) && BalancedCtx(c, was) && PlugHeight(c, was) == h
    && Before(c) + Keys(t) + After(c) == keys
    && (ranked ==> Ranked(t) && RankedCtx(c, Size(t)))
  }

  ghost function Joint<R, K>(c: Ctx<R, K>, t: Tree<R, K>): (n: Tree<R, K>)
    requires !c.Top?
    ensures n.Node?
  {
    if c.InLeft? then Node(t, c.ref, c.key, c.rank, c.bal, c.right)
    else Node(c.left, c.ref, c.key, c.rank, c.bal, t)
  }

  ghost function JointSide<R, K>(c: Ctx<R, K>): (side: int)
    requires !c.Top?
    ensures side == -1 || side == 1
  {
    if c.InLeft? then -1 else 1
  }

  lemma {:induction false} ShrinkCells<R, K>(n: Tree<R, K>, side: int)
    requires Shrinkable(n, side)
    ensures Cells(Shrink(n, side)) == Cells(n)
  {
    if n.bal == -side && side == -1 && n.right.bal == -1 {
      DoubleLeftCells(n);
    } else if n.bal == -side && side == 1 && n.left.bal == 1 {
      DoubleRightCells(n);
    }
  }

  /** `f` may take the place of `n`: same keys, balanced, and as tall as `n` was or one level less. */
  ghost predicate Shrunk<R, K>(n: Tree<R, K>, side: int, f: Tree<R, K>, shorter: bool) {
    && n.Node? && Balanced(f) && Height(f) == OldHeight(n, side) - (if shorter then 1 else 0)
    && Keys(f) == Keys(n) && Size(f) == Size(n) && (Ranked(n) ==> Ranked(f))
  }

  lemma {:induction false} ShrinkShrinks<R, K>(n: Tree<R, K>, side: int)
    requires LostLevel(n, side)
    ensures Shrinkable(n, side) && Shrunk(n, side, Shrink(n, side), StillShorter(n, side))
  {
    LostLevelShrinkable(n, side);
    ShrinkBalanced(n, side);
    ShrinkKeys(n, side);
    assert Size(Shrink(n, side)) == |Keys(n)| == Size(n);
    if Ranked(n) {
      ShrinkRanked(n, side);
    }
  }

  /** One iteration leaves only one subtree, the one it has reached, a level shorter than recorded. */
  lemma {:induction false} ClimbStep<R, K>(c: Ctx<R, K>, t: Tree<R, K>, f: Tree<R, K>, shorter: bool,
                                           keys: seq<K>, ranked: bool, h: nat)
    requires Climbing(c, t, true, keys, ranked, h) && !c.Top? && Shrunk(Joint(c, t), JointSide(c), f, shorter)
    ensures Climbing(c.up, f, shorter, keys, ranked, h)
  {
    ClimbKeys(c, t, Joint(c, t));
    ClimbHeights(c, t, f, shorter, h);
    if ranked {
      ClimbRanks(c, t, f);
    }
  }

  lemma {:induction false} ClimbHeights<R, K>(c: Ctx<R, K>, t: Tree<R, K>, f: Tree<R, K>, shorter: bool, h: nat)
    requires !c.Top? && BalancedCtx(c, Height(t) + 1) && PlugHeight(c, Height(t) + 1) == h
    requires Height(f) == OldHeight(Joint(c, t), JointSide(c)) - (if shorter then 1 else 0)
    ensures var was := Height(f) + (if shorter then 1 else 0);
      BalancedCtx(c.up, was) && PlugHeight(c.up, was) == h
  {
    var old' := OldHeight(Joint(c, t), JointSide(c));
    assert BalancedCtx(c.up, old') && PlugHeight(c.up, old') == h;
  }

  lemma {:induction false} ClimbRanks<R, K>(c: Ctx<R, K>, t: Tree<R, K>, f: Tree<R, K>)
    requires !c.Top? && Ranked(t) && RankedCtx(c, Size(t))
    requires Size(f) == Size(Joint(c, t)) && (Ranked(Joint(c, t)) ==> Ranked(f))
    ensures Ranked(f) && RankedCtx(c.up, Size(f))
  {}

  lemma {:induction false} ClimbKeys<R, K>(c: Ctx<R, K>, t: Tree<R, K>, n: Tree<R, K>)
    requires !c.Top? && n == Joint(c, t)
    ensures Before(c.up) + Keys(n) + After(c.up) == Before(c) + Keys(t) + After(c)
  {
    if c.InLeft? {
      SeqShift(Before(c.up), Keys(t), c.key, Keys(c.right), After(c.up));
    } else {
      SeqShift(Before(c.up), Keys(c.left), c.key, Keys(t), After(c.up));
    }
  }

  /** When the climb ends, at the top or because nothing is shorter any more, all is well. */
  lemma {:induction false} ClimbEnd<R, K>(c: Ctx<R, K>, t: Tree<R, K>, shorter: bool, keys: seq<K>, ranked: bool,
                                          h: nat)
    requires Climbing(c, t, shorter, keys, ranked, h) && (shorter ==> c.Top?)
    ensures var whole := Plug(c, t);
      && Balanced(whole) && Keys(whole) == keys && Height(whole) <= h && (ranked ==> Ranked(whole))
  {
    PlugBalanced(c, t);
    PlugKeys(c, t);
    PlugRanked(c, t);
  }

  /** The path to a predecessor: one step left, then right as far as it goes. */
  ghost predicate OnlyRight<R, K>(c: Ctx<R, K>) {
    c.Top? || (c.InRight? && OnlyRight(c.up))
  }

  lemma {:induction false} OnlyRightFacts<R, K>(c: Ctx<R, K>)
    requires OnlyRight(c)
    ensures After(c) == [] && Rerank(c, -1) == c
  {
    if !c.Top? { OnlyRightFacts(c.up); }
  }

  /** Taking out a node with at most one child: the child takes its place. */
  ghost function Spliced<R, K>(x: Tree<R, K>): Tree<R, K>
    requires x.Node?
  {
    if x.left.Node? then x.left else x.right
  }

  ghost predicate SameButKey<R, K>(a: Ctx<R, K>, b: Ctx<R, K>) {
    a.InLeft? && b.InLeft? && b == InLeft(a.up, a.ref, b.key, a.rank, a.bal, a.right)
  }

  /** Frames inside a path do not care which key an outer frame holds. */
  lemma {:induction false} RekeyBalanced<R, K>(inner: Ctx<R, K>, a: Ctx<R, K>, b: Ctx<R, K>, h: nat)
    requires SameButKey(a, b)
    ensures BalancedCtx(Compose(inner, a), h) <==> BalancedCtx(Compose(inner, b), h)
    ensures PlugHeight(Compose(inner, a), h) == PlugHeight(Compose(inner, b), h)
  {
    match inner
    case Top =>
    case InLeft(up, n, k, rk, bl, r) => RekeyBalanced(up, a, b, 1 + Max(h, Height(r)));
    case InRight(up, l, n, k, rk, bl) => RekeyBalanced(up, a, b, 1 + Max(Height(l), h));
  }

  lemma {:induction false} RekeyRanked<R, K>(inner: Ctx<R, K>, a: Ctx<R, K>, b: Ctx<R, K>, size: nat)
    requires SameButKey(a, b)
    ensures RankedCtx(Compose(inner, a), size) <==> RankedCtx(Compose(inner, b), size)
  {
    match inner
    case Top =>
    case InLeft(up, n, k, rk, bl, r) => RekeyRanked(up, a, b, size + 1 + Size(r));
    case InRight(up, l, n, k, rk, bl) => RekeyRanked(up, a, b, Size(l) + 1 + size);
  }

  /** `u` is `s` without one entry, and that entry is `k`. */
  ghost predicate RemovesOne<K>(s: seq<K>, u: seq<K>, k: K) {
    exists i :: 0 <= i < |s| && s[i] == k && u == RemoveAt(s, i)
  }

  lemma {:induction false} RemovesOneSorted<K>(cmp: (K, K) -> int, s: seq<K>, u: seq<K>, k: K)
    requires Sorted(cmp, s) && RemovesOne(s, u, k)
    ensures Sorted(cmp, u) && |u| == |s| - 1
  {
    var i :| 0 <= i < |s| && s[i] == k && u == RemoveAt(s, i);
    SortedRemove(cmp, s, i);
  }

  lemma RemovesOneAt<K>(a: seq<K>, k: K, b: seq<K>)
    ensures RemovesOne(a + [k] + b, a + b, k)
  {
    var s := a + [k] + b;
    assert s[|a|] == k && s[..|a|] == a && s[|a| + 1..] == b;
    assert a + b == RemoveAt(s, |a|);
  }

  lemma {:induction false} RemovesSpliced<K>(b: seq<K>, t: seq<K>, k: K, a: seq<K>)
    ensures RemovesOne(b + (t + [k]) + a, b + t + a, k)
    ensures RemovesOne(b + ([k] + t) + a, b + t + a, k)
  {
    RemovesOneAt(b + t, k, a);
    assert b + (t + [k]) + a == (b + t) + [k] + a;
    RemovesOneAt(b, k, t + a);
    assert b + ([k] + t) + a == b + [k] + (t + a);
    assert b + t + a == b + (t + a);
  }

  /** Deleting a node with at most one child takes out its key and nothing else. */
  lemma {:induction false} SpliceRemoves<R, K>(c: Ctx<R, K>, x: Tree<R, K>)
    requires x.Node? && (x.left.Leaf? || x.right.Leaf?)
    ensures RemovesOne(Keys(Plug(c, x)), Before(c) + Keys(Spliced(x)) + After(c), x.key)
  {
    PlugKeys(c, x);
    SplicedKeys(x);
    RemovesSpliced(Before(c), Keys(Spliced(x)), x.key, After(c));
  }

  lemma {:induction false} SplicedKeys<R, K>(x: Tree<R, K>)
    requires x.Node? && (x.left.Leaf? || x.right.Leaf?)
    ensures Keys(x) == if x.left.Node? then Keys(Spliced(x)) + [x.key] else [x.key] + Keys(Spliced(x))
  {}

  lemma {:induction false} SpliceStarts<R, K>(c: Ctx<R, K>, x: Tree<R, K>)
    requires x.Node? && (x.left.Leaf? || x.right.Leaf?) && Balanced(Plug(c, x))
    ensures var t := Spliced(x);
      Climbing(Rerank(c, -1), t, true, Before(c) + Keys(t) + After(c), Ranked(Plug(c, x)), Height(Plug(c, x)))
  {
    PlugBalanced(c, x);
    SplicedShape(x);
    RerankKeeps(c, -1, Height(x));
    if Ranked(Plug(c, x)) {
      SpliceRanked(c, x, Spliced(x));
    }
  }

  lemma {:induction false} SpliceRanked<R, K>(c: Ctx<R, K>, x: Tree<R, K>, t: Tree<R, K>)
    requires Ranked(Plug(c, x)) && (Ranked(x) ==> Ranked(t)) && Size(t) == Size(x) - 1
    ensures Ranked(t) && RankedCtx(Rerank(c, -1), Size(t))
  {
    PlugRanked(c, x);
    RerankRanked(c, -1, Size(x));
  }

  lemma {:induction false} SplicedShape<R, K>(x: Tree<R, K>)
    requires x.Node? && (x.left.Leaf? || x.right.Leaf?) && Balanced(x)
    ensures var t := Spliced(x);
      Balanced(t) && Height(t) == Height(x) - 1 && Size(t) == Size(x) - 1 && (Ranked(x) ==> Ranked(t))
  {}

  /** The path to the predecessor `y` of `x`, once `x` holds its key and has a smaller left side. */
  ghost function SwappedPath<R, K>(c: Ctx<R, K>, x: Tree<R, K>, inner: Ctx<R, K>, k: K): Ctx<R, K>
    requires x.Node?
  {
    Compose(inner, InLeft(Rerank(c, -1), x.ref, k, Wrap(x.rank - 1), x.bal, x.right))
  }

  /** `inner` leads from the left child of `x` to `y`, the rightmost node below it. */
  ghost predicate Predecessor<R, K>(x: Tree<R, K>, inner: Ctx<R, K>, y: Tree<R, K>) {
    x.Node? && y.Node? && y.right.Leaf? && OnlyRight(inner) && Plug(inner, y) == x.left
  }

  lemma {:induction false} RekeyClimbing<R, K>(inner: Ctx<R, K>, a: Ctx<R, K>, b: Ctx<R, K>, t: Tree<R, K>,
                                               keys: seq<K>, ranked: bool, h: nat)
    requires SameButKey(a, b) && Climbing(Compose(inner, a), t, true, keys, ranked, h)
    ensures var c := Compose(inner, b);
      Climbing(c, t, true, Before(c) + Keys(t) + After(c), ranked, h)
  {
    RekeyBalanced(inner, a, b, Height(t) + 1);
    RekeyRanked(inner, a, b, Size(t));
  }

  /** Swapping with the predecessor and taking that node out starts the climb all the same. */
  lemma {:induction false} PredecessorStarts<R, K>(c: Ctx<R, K>, x: Tree<R, K>, inner: Ctx<R, K>, y: Tree<R, K>)
    requires Predecessor(x, inner, y) && Balanced(Plug(c, x))
    ensures var b := SwappedPath(c, x, inner, y.key);
      Climbing(b, y.left, true, Before(b) + Keys(y.left) + After(b), Ranked(Plug(c, x)), Height(Plug(c, x)))
  {
    var frame := InLeft(c, x.ref, x.key, x.rank, x.bal, x.right);
    var a := Compose(inner, frame);
    var keys := Before(a) + Keys(y.left) + After(a);
    assert Plug(a, y) == Plug(c, x) by { PlugCompose(inner, frame, y); }
    SpliceStarts(a, y);
    var low := Rerank(frame, -1);
    assert Rerank(a, -1) == Compose(inner, low) by {
      RerankCompose(inner, frame, -1);
      OnlyRightFacts(inner);
    }
    var rekeyed := InLeft(Rerank(c, -1), x.ref, y.key, Wrap(x.rank - 1), x.bal, x.right);
    RekeyClimbing(inner, low, rekeyed, y.left, keys, Ranked(Plug(c, x)), Height(Plug(c, x)));
  }

  lemma {:induction false} SwappedPathKeys<R, K>(c: Ctx<R, K>, x: Tree<R, K>, inner: Ctx<R, K>, y: Tree<R, K>)
    requires Predecessor(x, inner, y)
    ensures var b := SwappedPath(c, x, inner, y.key);
      Before(b) == Before(c) + Before(inner) && After(b) == [y.key] + Keys(x.right) + After(c)
  {
    var frame := InLeft(Rerank(c, -1), x.ref, y.key, Wrap(x.rank - 1), x.bal, x.right);
    PlugCompose(inner, frame, y);
    OnlyRightFacts(inner);
    RerankKeeps(c, -1, 0);
  }

  lemma {:induction false} PredecessorKeys<R, K>(x: Tree<R, K>, inner: Ctx<R, K>, y: Tree<R, K>)
    requires Predecessor(x, inner, y)
    ensures Keys(x.left) == Before(inner) + (Keys(y.left) + [y.key])
  {
    OnlyRightFacts(inner);
    PlugKeys(inner, y);
    SplicedKeys(y);
  }

  /** Putting the predecessor's key in its place takes out the key of `x` and nothing else. */
  lemma {:induction false} PredecessorRemoves<R, K>(c: Ctx<R, K>, x: Tree<R, K>, inner: Ctx<R, K>, y: Tree<R, K>)
    requires Predecessor(x, inner, y)
    ensures var b := SwappedPath(c, x, inner, y.key);
      RemovesOne(Keys(Plug(c, x)), Before(b) + Keys(y.left) + After(b), x.key)
  {
    SwappedPathKeys(c, x, inner, y);
    PredecessorKeys(x, inner, y);
    PlugKeys(c, x);
    RemovesSwapped(Before(c), Before(inner), Keys(y.left), y.key, x.key, Keys(x.right), After(c));
  }

  lemma {:induction false} RemovesSwapped<K>(p: seq<K>, i: seq<K>, t: seq<K>, yk: K, xk: K, r: seq<K>, a: seq<K>)
    ensures RemovesOne(p + ((i + (t + [yk])) + [xk] + r) + a, (p + i) + t + ([yk] + r + a), xk)
  {
    var l := i + (t + [yk]);
    RemovesOneAt(p + l, xk, r + a);
    assert p + (l + [xk] + r) + a == (p + l) + [xk] + (r + a);
    assert (p + i) + t + ([yk] + r + a) == (p + l) + (r + a);
  }

  lemma {:induction false} ClimbLost<R, K>(c: Ctx<R, K>, t: Tree<R, K>, keys: seq<K>, ranked: bool, h: nat)
    requires Climbing(c, t, true, keys, ranked, h) && !c.Top?
    ensures LostLevel(Joint(c, t), JointSide(c))
  {}

  lemma {:induction false} SwappedCells<R, K>(c: Ctx<R, K>, x: Tree<R, K>, inner: Ctx<R, K>, y: Tree<R, K>,
                                              b: Ctx<R, K>)
    requires Predecessor(x, inner, y) && b == SwappedPath(c, x, inner, y.key)
    ensures CtxCells(b) + Cells(y) == Cells(Plug(c, x)) == CtxCells(c) + Cells(x)
  {
    PlugCells(c, x);
    PlugCells(inner, y);
    RerankKeeps(c, -1, 0);
    PlugCompose(inner, InLeft(Rerank(c, -1), x.ref, y.key, Wrap(x.rank - 1), x.bal, x.right), y);
  }
}
