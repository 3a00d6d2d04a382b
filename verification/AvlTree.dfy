/** The order-statistic AVL tree: a sentinel head whose right subtree is the tree proper. */
module AvlTrees {
  import opened AvlShape
  import opened AvlUpdate
  import opened AvlHeap

  class AvlTree<K(!new)> {
    const head: AvlNode<K>
    const cmp: (K, K) -> int
    var height: nat
    var length: nat
    /** The value the nodes below `head` spell out. */
    ghost var model: Shape<K>

    ghost predicate Linked()
      reads this, head, Cells(model)
    {
      At(Top, model, head) && head.parent == null && head.left == null && head.key == Null
    }

    /** The invariant of every reachable tree.  Ranks are apart: see `Ranked` and `Delete`. */
    ghost predicate Valid()
      reads this, head, Cells(model)
    {
      && Linked()
      && TotalPreorder(cmp) && Sorted(cmp, Contents())
      && Balanced(model)
      && length == Size(model)
      && Height(model) <= height + 1
    }

    ghost function Contents(): seq<K>
      reads this
    {
      Keys(model)
    }

    constructor (cmp: (K, K) -> int)
      requires TotalPreorder(cmp)
      ensures Valid() && fresh(head) && this.cmp == cmp && model == Leaf && height == 0
    {
      head := new AvlNode<K>(Null, null);
      height := 0;
      length := 0;
      this.cmp := cmp;
      model := Leaf;
    }

    /**
    One step of the first walk of an insertion, at `p`, which `path` leads to: adjusts the rank of
    `p` if the walk goes left, and comes to its child, or to the new node if there is none.
    */
    method WalkStep(p: AvlNode<K>, key: K, ghost path: Path<K>, ghost sub: Shape<K>)
      returns (next: AvlNode<K>, added: bool)
      requires At(Rerank(path, 1), sub, head) && sub.Node? && p == sub.ref
      modifies p
      ensures added <==> Below(sub, cmp, key).Leaf?
      ensures added ==>
        fresh(next) && At(Rerank(Ahead(path, sub, cmp, key), 1), Single(next, key), head)
      ensures !added ==>
        && next == Below(sub, cmp, key).ref
        && At(Rerank(Ahead(path, sub, cmp, key), 1), Below(sub, cmp, key), head)
    {
      if cmp(key, p.key.value) < 1 {
        next, added := StepLeft(p, key, path, sub);
      } else {
        next, added := StepRight(p, key, path, sub);
      }
    }

    method StepLeft(p: AvlNode<K>, key: K, ghost path: Path<K>, ghost sub: Shape<K>)
      returns (next: AvlNode<K>, added: bool)
      requires At(Rerank(path, 1), sub, head) && sub.Node? && p == sub.ref && cmp(key, sub.key) < 1
      modifies p
      ensures added <==> sub.left.Leaf?
      ensures added ==> fresh(next) && At(Rerank(Ahead(path, sub, cmp, key), 1), Single(next, key), head)
      ensures !added ==> next == sub.left.ref && At(Rerank(Ahead(path, sub, cmp, key), 1), sub.left, head)
    {
      ghost var c := Rerank(path, 1);
      SetRank(p, p.Rank() + 1, c, sub, head);
      ghost var sub' := sub.(rank := Wrap(sub.rank + 1));
      Descend(c, sub', head);
      assert Rerank(Ahead(path, sub, cmp, key), 1) == ToLeft(c, sub');
      var l := p.left;
      if l == null {
        next := AddLeft(p, key, c, sub', head);
        added := true;
      } else {
        next, added := l, false;
      }
    }

    method StepRight(p: AvlNode<K>, key: K, ghost path: Path<K>, ghost sub: Shape<K>)
      returns (next: AvlNode<K>, added: bool)
      requires At(Rerank(path, 1), sub, head) && sub.Node? && p == sub.ref && cmp(key, sub.key) >= 1
      modifies p
      ensures added <==> sub.right.Leaf?
      ensures added ==> fresh(next) && At(Rerank(Ahead(path, sub, cmp, key), 1), Single(next, key), head)
      ensures !added ==> next == sub.right.ref && At(Rerank(Ahead(path, sub, cmp, key), 1), sub.right, head)
    {
      ghost var c := Rerank(path, 1);
      Descend(c, sub, head);
      assert Rerank(Ahead(path, sub, cmp, key), 1) == ToRight(c, sub);
      var r := p.right;
      if r == null {
        next := AddRight(p, key, c, sub, head);
        added := true;
      } else {
        next, added := r, false;
      }
    }

    /** First walk of an insertion: finds the place, adjusts ranks, remembers the last unbalanced node. */
    method Walk(key: K)
      returns (t: AvlNode<K>, s: AvlNode<K>, q: AvlNode<K>, ghost outer: Path<K>, ghost piv: Shape<K>)
      requires Linked() && model.Node?
      modifies Cells(model)
      ensures fresh(q) && q !in Cells(model) && Plug(outer, piv) == model && InsertPath(outer, cmp, key)
      ensures piv.Node? && FlatBelow(piv, cmp, key) && (piv.bal == 0 ==> outer.Top?)
      ensures t == Hole(outer, head) && s == piv.ref
      ensures At(Rerank(outer, 1), Hang(piv, cmp, key, q), head)
    {
      CellsAllocated(model);
      t := head;
      s := head.right;
      var p := s;
      outer, piv := Top, model;
      ghost var inner: Path<K>, sub: Shape<K>, path: Path<K> := Top, model, Top;
      while true
        invariant Trail(model, outer, piv, inner, sub, cmp, key)
        invariant At(Rerank(path, 1), sub, head) && path == Compose(inner, outer)
        invariant p == sub.ref && t == Hole(outer, head) && s == piv.ref
        invariant Cells(sub) <= Cells(model)
        decreases sub
      {
        ghost var deeper, next := Ahead(inner, sub, cmp, key), Below(sub, cmp, key);
        var added;
        q, added := WalkStep(p, key, path, sub);
        TrailStep(model, outer, piv, inner, sub, cmp, key);
        path := Ahead(path, sub, cmp, key);
        if added {
          break;
        }
        if q.Balance() != 0 {
          t := p;
          s := q;
          inner, outer, piv := Top, path, next;
        } else {
          inner := deeper;
        }
        p := q;
        sub := next;
      }
      WalkEnd(key, q, outer, piv, inner, sub);
    }

    lemma WalkEnd(key: K, q: AvlNode<K>, outer: Path<K>, piv: Shape<K>, inner: Path<K>, sub: Shape<K>)
      requires Trail(model, outer, piv, inner, sub, cmp, key) && Below(sub, cmp, key).Leaf?
      requires At(Rerank(Compose(Ahead(inner, sub, cmp, key), outer), 1), Single(q, key), head)
      ensures FlatBelow(piv, cmp, key)
      ensures At(Rerank(outer, 1), Hang(piv, cmp, key, q), head)
    {
      var c := Ahead(inner, sub, cmp, key);
      TrailEnd(model, outer, piv, inner, sub, cmp, key, q);
      RerankCompose(c, outer, 1);
      ZipUp(Rerank(c, 1), Rerank(outer, 1), Single(q, key), head);
    }

    /** One step of the second walk: `p` is made to lean towards the new node. */
    method LeanStep(p: AvlNode<K>, key: K, ghost q: AvlNode<K>, ghost path: Path<K>, ghost sub: Shape<K>)
      returns (next: AvlNode<K>)
      requires sub.Node? && p == sub.ref && At(path, Hang(sub, cmp, key, q), head)
      modifies p`rankAndBalance
      ensures next == Hang(Below(sub, cmp, key), cmp, key, q).ref
      ensures At(Ahead(path, Leant(sub, key, q), cmp, key), Hang(Below(sub, cmp, key), cmp, key, q), head)
    {
      ghost var h, h' := Hang(sub, cmp, key, q), Leant(sub, key, q);
      if cmp(key, p.key.value) < 1 {
        SetBalance(p, -1, path, h, head);
        Descend(path, h', head);
        assert h'.left == Hang(sub.left, cmp, key, q);
        next := p.left;
      } else {
        SetBalance(p, 1, path, h, head);
        Descend(path, h', head);
        assert h'.right == Hang(sub.right, cmp, key, q);
        next := p.right;
      }
    }

    ghost function Leant(sub: Shape<K>, key: K, q: AvlNode<K>): Shape<K>
      requires sub.Node?
    {
      var h := Hang(sub, cmp, key, q);
      Node(h.left, h.ref, h.key, h.rank, Side(sub, cmp, key), h.right)
    }

    /** Second walk: sets the balance factors strictly between the pivot and the new node. */
    method Lean(s: AvlNode<K>, q: AvlNode<K>, key: K, ghost c: Path<K>, ghost piv: Shape<K>)
      returns (r: AvlNode<K>)
      requires piv.Node? && s == piv.ref && q !in Cells(piv) && At(c, Hang(piv, cmp, key, q), head)
      modifies Cells(piv)
      ensures At(c, Pivot(piv, cmp, key, q), head)
      ensures r == Below(Pivot(piv, cmp, key, q), cmp, key).ref
    {
      ghost var hung, start := Hang(piv, cmp, key, q), Below(piv, cmp, key);
      ghost var base := Ahead(c, hung, cmp, key);
      Descend(c, hung, head);
      if cmp(key, s.key.value) < 1 {
        assert hung.left == Hang(piv.left, cmp, key, q);
        r := s.left;
      } else {
        assert hung.right == Hang(piv.right, cmp, key, q);
        r := s.right;
      }
      var p := r;
      ghost var inner: Path<K>, path: Path<K>, sub: Shape<K> := Top, base, start;
      while p != q
        invariant At(path, Hang(sub, cmp, key, q), head) && path == Compose(inner, base)
        invariant p == Hang(sub, cmp, key, q).ref && Cells(sub) <= Cells(piv)
        invariant Plug(inner, Grow(sub, cmp, key, q)) == Grow(start, cmp, key, q)
        decreases sub
      {
        ghost var h := Leant(sub, key, q);
        p := LeanStep(p, key, q, path, sub);
        inner, path, sub := Ahead(inner, h, cmp, key), Ahead(path, h, cmp, key), Below(sub, cmp, key);
      }
      LeanEnd(key, q, c, piv, inner, base);
    }

    lemma LeanEnd(key: K, q: AvlNode<K>, c: Path<K>, piv: Shape<K>, inner: Path<K>, base: Path<K>)
      requires piv.Node? && base == Ahead(c, Hang(piv, cmp, key, q), cmp, key)
      requires At(Compose(inner, base), Single(q, key), head)
      requires Plug(inner, Single(q, key)) == Grow(Below(piv, cmp, key), cmp, key, q)
      ensures At(c, Pivot(piv, cmp, key, q), head)
    {
      ZipUp(inner, base, Single(q, key), head);
      var g := Pivot(piv, cmp, key, q);
      assert base == Ahead(c, g, cmp, key);
      Ascend(c, g, head);
    }

    /** The finishing touch: the subtree `u`, rooted at `p`, is hung from `t` where `s` was. */
    method Replace(t: AvlNode<K>, s: AvlNode<K>, p: AvlNode<K>, ghost c: Path<K>, ghost u: Shape<K>)
      requires RepPath(c, s, head) && t == Hole(c, head) && head.left == null
      requires Rep(u) && u.Node? && p == u.ref && s in Cells(u)
      requires CtxCells(c) !! Cells(u) && head !in CtxCells(c) && head !in Cells(u)
      modifies t, p
      ensures At(c, u, head)
      ensures t.parent == old(t.parent) && t.key == old(t.key) && head.left == null
    {
      CellsAllocated(u);
      PathAllocated(c);
      var _ := Relink(t, s, p, head, c);
      p.parent := t;
      assert Rep(u.left) && Rep(u.right);
    }

    /** The rotation at a pivot `s` that leans `a` and whose `a` side, rooted at `r`, has grown a level. */
    method Turn(s: AvlNode<K>, r: AvlNode<K>, a: int, ghost piv: Shape<K>) returns (p: AvlNode<K>)
      requires Rep(piv) && CanSettle(piv, a) && s == piv.ref
      requires piv.bal == a && r == (if a == -1 then piv.left else piv.right).ref
      modifies Cells(piv)
      ensures Rep(Settle(piv, a)) && p == Settle(piv, a).ref
    {
      assert Rep(piv.left) && Rep(piv.right);
      if r.Balance() == a {
        p := r;
        if a == -1 {
          RotateRightAt(s, r, 0, 0, piv);
        } else {
          RotateLeftAt(s, r, 0, 0, piv);
        }
      } else {
        if a == -1 {
          p := DoubleRightAt(s, r, piv);
        } else {
          p := DoubleLeftAt(s, r, piv);
        }
      }
    }

    /** The rotation, its result hung from the parent `t` in place of `s`. */
    method Rotate(t: AvlNode<K>, s: AvlNode<K>, r: AvlNode<K>, a: int, ghost c: Path<K>, ghost piv: Shape<K>)
      requires At(c, piv, head) && CanSettle(piv, a) && s == piv.ref && t == Hole(c, head) && head.left == null
      requires piv.bal == a && r == (if a == -1 then piv.left else piv.right).ref
      modifies t, Cells(piv)
      ensures At(c, Settle(piv, a), head)
      ensures t.parent == old(t.parent) && t.key == old(t.key) && head.left == null
    {
      CellsAllocated(piv);
      PathAllocated(c);
      SettleCells(piv, a);
      var p := Turn(s, r, a, piv);
      ghost var f := Settle(piv, a);
      Replace(t, s, p, c, f);
    }

    /** The balancing act at the pivot `s`, which has grown a level on side `a`. */
    method BalancingAct(t: AvlNode<K>, s: AvlNode<K>, r: AvlNode<K>, a: int, ghost c: Path<K>, ghost piv: Shape<K>)
      returns (grown: bool)
      requires At(c, piv, head) && CanSettle(piv, a) && -1 <= piv.bal <= 1
      requires s == piv.ref && t == Hole(c, head) && head.left == null
      requires piv.bal == a ==> r == (if a == -1 then piv.left else piv.right).ref
      modifies t, Cells(piv)
      ensures At(c, Settle(piv, a), head) && (grown <==> piv.bal == 0)
      ensures t.parent == old(t.parent) && t.key == old(t.key) && head.left == null
    {
      if s.Balance() == 0 {
        SetBalance(s, a, c, piv, head);
        grown := true;
      } else if s.Balance() == -a {
        SetBalance(s, 0, c, piv, head);
        grown := false;
      } else {
        Rotate(t, s, r, a, c, piv);
        grown := false;
      }
    }

    /** The second walk and the balancing act: the pivot `s` with `q` hung below it is mended. */
    method Mend(t: AvlNode<K>, s: AvlNode<K>, q: AvlNode<K>, key: K, ghost c: Path<K>, ghost piv: Shape<K>)
      returns (grown: bool, ghost f: Shape<K>)
      requires piv.Node? && Balanced(piv) && FlatBelow(piv, cmp, key) && s == piv.ref && q !in Cells(piv)
      requires At(c, Hang(piv, cmp, key, q), head) && t == Hole(c, head) && head.left == null
      modifies t, q, Cells(piv)
      ensures At(c, f, head) && Cells(f) == Cells(piv) + {q}
      ensures Repaired(piv, f, cmp, key) && (grown <==> piv.bal == 0)
      ensures t.parent == old(t.parent) && t.key == old(t.key) && head.left == null
    {
      ghost var p := Pivot(piv, cmp, key, q);
      PivotCells(piv, cmp, key, q);
      SettleRepairs(piv, cmp, key, q);
      var r := Lean(s, q, key, c, piv);
      var a := if cmp(key, s.key.value) < 1 then -1 else 1;
      grown := BalancingAct(t, s, r, a, c, p);
      SettleCells(p, a);
      f := Settle(p, a);
    }

    /** The whole tree, seen from the top again. */
    ghost function Assembled(c: Path<K>, t: Shape<K>): (whole: Shape<K>)
      requires At(c, t, head)
      reads CtxCells(c), Cells(t), head
      ensures whole == Plug(c, t) && At(Top, whole, head) && Cells(whole) == CtxCells(c) + Cells(t)
    {
      ComposeTop(c);
      ZipUp(c, Top, t, head);
      PlugCells(c, t);
      Plug(c, t)
    }

    method InsertBelow(key: K) returns (grown: bool)
      requires Linked() && Balanced(model) && model.Node?
      modifies this`model, head, Cells(model)
      ensures Linked() && fresh(Cells(model) - old(Cells(model)))
      ensures Inserted(old(model), model, cmp, key, grown)
    {
      var t, s, q;
      ghost var outer, piv;
      t, s, q, outer, piv := WalkInside(key);
      ghost var whole;
      grown, whole := MendWhole(t, s, q, key, outer, piv);
      model := whole;
    }

    /** The first walk, and that what it found is part of the tree. */
    method WalkInside(key: K)
      returns (t: AvlNode<K>, s: AvlNode<K>, q: AvlNode<K>, ghost outer: Path<K>, ghost piv: Shape<K>)
      requires Linked() && Balanced(model) && model.Node?
      modifies Cells(model)
      ensures fresh(q) && q !in Cells(piv) && Plug(outer, piv) == model && InsertPath(outer, cmp, key)
      ensures piv.Node? && Balanced(piv) && FlatBelow(piv, cmp, key) && (piv.bal == 0 ==> outer.Top?)
      ensures t == Hole(outer, head) && (t == head || t in Cells(model)) && s == piv.ref && Cells(piv) <= Cells(model)
      ensures At(Rerank(outer, 1), Hang(piv, cmp, key, q), head)
    {
      t, s, q, outer, piv := Walk(key);
      PivotInside(outer, piv, Rerank(outer, 1));
    }

    /** The same, as what it makes of the whole tree. */
    method MendWhole(t: AvlNode<K>, s: AvlNode<K>, q: AvlNode<K>, key: K, ghost outer: Path<K>, ghost piv: Shape<K>)
      returns (grown: bool, ghost whole: Shape<K>)
      requires piv.Node? && Balanced(piv) && FlatBelow(piv, cmp, key) && s == piv.ref && q !in Cells(piv)
      requires At(Rerank(outer, 1), Hang(piv, cmp, key, q), head) && t == Hole(outer, head) && head.left == null
      requires InsertPath(outer, cmp, key) && (piv.bal == 0 ==> outer.Top?) && Balanced(Plug(outer, piv))
      modifies t, q, Cells(piv)
      ensures At(Top, whole, head) && Cells(whole) == Cells(Plug(outer, piv)) + {q}
      ensures Inserted(Plug(outer, piv), whole, cmp, key, grown)
      ensures t.parent == old(t.parent) && t.key == old(t.key) && head.left == null
    {
      ghost var c := Rerank(outer, 1);
      ghost var f;
      grown, f := Mend(t, s, q, key, c, piv);
      InsertedWhole(outer, piv, f, cmp, key);
      RerankKeeps(outer, 1, 0);
      PlugCells(outer, piv);
      whole := Assembled(c, f);
    }

    lemma PivotInside(outer: Path<K>, piv: Shape<K>, c: Path<K>)
      requires Plug(outer, piv) == model && Balanced(model) && c == Rerank(outer, 1)
      ensures Balanced(piv) && Cells(model) == CtxCells(c) + Cells(piv)
      ensures Hole(c, head) == Hole(outer, head)
      ensures Hole(c, head) == head || Hole(c, head) in Cells(model)
    {
      PlugBalanced(outer, piv);
      PlugCells(outer, piv);
      RerankKeeps(outer, 1, 0);
    }

    /** Insertion as a change of the tree's value; order plays no part yet. */
    method InsertNode(key: K) returns (grown: bool)
      requires Linked() && Balanced(model)
      modifies this`model, head, Cells(model)
      ensures Linked() && fresh(Cells(model) - old(Cells(model)))
      ensures Inserted(old(model), model, cmp, key, grown || old(model).Leaf?)
      ensures old(model).Leaf? ==> !grown
    {
      grown := false;
      if head.right == null {
        var node := new AvlNode<K>(Key(key), head);
        head.right := node;
        model := Single(node, key);
      } else {
        grown := InsertBelow(key);
      }
    }

    /**
    Insertion places the key before the first entry not less than it and keeps every part of the
    invariant; ranks that were right stay right.
    */
    method Insert(key: K) returns (rc: int)
      requires Valid()
      modifies this, head, Cells(model)
      ensures Valid() && rc == 0 && fresh(Cells(model) - old(Cells(model)))
      ensures Contents() == InsertAt(old(Contents()), CountLess(cmp, old(Contents()), key), key)
      ensures old(Ranked(model)) ==> Ranked(model)
      ensures old(model).Node? ==> height - old(height) == Height(model) - old(Height(model))
      ensures old(model).Leaf? ==> height == old(height) && Height(model) == 1
    {
      SlotIsCountLess(model, cmp, key);
      SortedInsert(cmp, Contents(), key);
      var grown := InsertNode(key);
      length := length + 1;
      if grown {
        height := height + 1;
      }
      assert Size(model) == |Keys(model)|;
      rc := 0;
    }

    // -------------------------------------------------------------- deletion

    /** A deletion's search step to the left: the rank of `x` is lowered, and raised again if there is no child. */
    method SeekLeft(x: AvlNode<K>, ghost low: Path<K>, ghost sub: Shape<K>) returns (next: AvlNode<K>, moved: bool)
      requires At(low, sub, head) && sub.Node? && x == sub.ref
      modifies x
      ensures moved <==> sub.left.Node?
      ensures moved ==> next == sub.left.ref && At(ToLeft(low, sub.(rank := Wrap(sub.rank - 1))), sub.left, head)
      ensures !moved ==> next == x && At(low, sub, head)
    {
      SetRank(x, x.Rank() - 1, low, sub, head);
      ghost var sub1 := sub.(rank := Wrap(sub.rank - 1));
      Descend(low, sub1, head);
      if x.left != null {
        next, moved := x.left, true;
      } else {
        next, moved := x, false;
        SetRank(x, x.Rank() + 1, low, sub1, head);
        WrapSub(sub.rank, 1);
        WrapAdd(sub.rank - 1, 1);
      }
    }

    /** One step of a deletion's search. */
    method SeekStep(x: AvlNode<K>, key: K, ghost c: Path<K>, ghost sub: Shape<K>)
      returns (next: AvlNode<K>, moved: bool)
      requires At(Rerank(c, -1), sub, head) && sub.Node? && x == sub.ref && cmp(key, sub.key) != 0
      modifies x
      ensures moved <==> SearchBelow(sub, cmp, key).Node?
      ensures moved ==>
        && next == SearchBelow(sub, cmp, key).ref
        && At(Rerank(SearchAhead(c, sub, cmp, key), -1), SearchBelow(sub, cmp, key), head)
      ensures !moved ==> next == x && At(Rerank(c, -1), sub, head)
    {
      ghost var low, ahead := Rerank(c, -1), Rerank(SearchAhead(c, sub, cmp, key), -1);
      if cmp(key, x.key.value) < 0 {
        next, moved := SeekLeft(x, low, sub);
        assert ahead == ToLeft(low, sub.(rank := Wrap(sub.rank - 1)));
      } else {
        next, moved := x, false;
        Descend(low, sub, head);
        if x.right != null {
          next, moved := x.right, true;
          assert ahead == ToRight(low, sub);
        }
      }
    }

    /** The search of a deletion: lowers the rank of every node it leaves to the left. */
    method Seek(key: K) returns (x: AvlNode<K>, found: bool, ghost c: Path<K>, ghost sub: Shape<K>)
      requires Linked() && model.Node?
      modifies Cells(model)
      ensures Plug(c, sub) == model && SearchPath(c, cmp, key) && sub.Node? && x == sub.ref
      ensures At(Rerank(c, -1), sub, head)
      ensures found <==> cmp(key, sub.key) == 0
      ensures !found ==> SearchBelow(sub, cmp, key).Leaf?
    {
      x := head.right;
      c, sub := Top, model;
      var moved := true;
      while moved && cmp(key, x.key.value) != 0
        invariant Plug(c, sub) == model && SearchPath(c, cmp, key) && sub.Node? && x == sub.ref
        invariant At(Rerank(c, -1), sub, head) && Cells(sub) <= Cells(model)
        invariant !moved ==> SearchBelow(sub, cmp, key).Leaf? && cmp(key, sub.key) != 0
        decreases sub, moved
      {
        x, moved := SeekStep(x, key, c, sub);
        if moved {
          c, sub := SearchAhead(c, sub, cmp, key), SearchBelow(sub, cmp, key);
        }
      }
      found := moved;
    }

    /** The one child of `x`, if there is one, is told that the parent of `x` is now its own. */
    method Scoot(x: AvlNode<K>, ghost c: Path<K>, ghost t: Shape<K>) returns (child: AvlNode?<K>)
      requires At(c, t, head) && t.Node? && x == t.ref && (t.left.Leaf? || t.right.Leaf?)
      modifies if Spliced(t).Node? then {Spliced(t).ref} else {}
      ensures child == Root(Spliced(t)) && Rep(Spliced(t)) && RepPath(c, x, head)
      ensures Spliced(t).Node? ==> child.parent == Hole(c, head)
    {
      CellsAllocated(t);
      PathAllocated(c);
      ghost var u := Spliced(t);
      if x.left != null {
        child := x.left;
      } else {
        child := x.right;
      }
      Adopt(child, x.parent, u);
    }

    /** Takes out `x`, which has at most one child; the child takes its place below `p`. */
    method Unhook(x: AvlNode<K>, ghost c: Path<K>, ghost t: Shape<K>) returns (p: AvlNode<K>, side: int)
      requires At(c, t, head) && t.Node? && x == t.ref && (t.left.Leaf? || t.right.Leaf?) && head.left == null
      modifies head, CtxCells(c), Cells(t)
      ensures At(c, Spliced(t), head) && p == Hole(c, head)
      ensures c.Top? || side == JointSide(c)
      ensures head.parent == old(head.parent) && head.key == old(head.key) && head.left == null
    {
      CellsAllocated(t);
      PathAllocated(c);
      p := x.parent;
      var child := Scoot(x, c, t);
      side := Relink(p, x, child, head, c);
    }

    /** The rotations of the climb at `p`, whose shorter side has lost a level. */
    method ShrinkTurn(p: AvlNode<K>, side: int, ghost n: Shape<K>) returns (q: AvlNode<K>)
      requires Rep(n) && Shrinkable(n, side) && n.bal == -side && p == n.ref
      modifies Cells(n)
      ensures Rep(Shrink(n, side)) && q == Shrink(n, side).ref
    {
      assert Rep(n.left) && Rep(n.right);
      if side == 1 {
        q := p.left;
        if q.Balance() == 0 {
          RotateRightAt(p, q, -1, 1, n);
        } else if q.Balance() == -1 {
          RotateRightAt(p, q, 0, 0, n);
        } else {
          q := DoubleRightAt(p, q, n);
        }
      } else {
        q := p.right;
        if q.Balance() == 0 {
          RotateLeftAt(p, q, 1, -1, n);
        } else if q.Balance() == 1 {
          RotateLeftAt(p, q, 0, 0, n);
        } else {
          q := DoubleLeftAt(p, q, n);
        }
      }
    }

    /** The rotation, and the news of it told to the former parent of `p`. */
    method ShrinkRotate(p: AvlNode<K>, side: int, ghost c: Path<K>, ghost n: Shape<K>) returns (q: AvlNode<K>)
      requires At(c, n, head) && Shrinkable(n, side) && n.bal == -side && p == n.ref && head.left == null
      modifies head, CtxCells(c), Cells(n)
      ensures At(c, Shrink(n, side), head) && q == Shrink(n, side).ref
      ensures head.parent == old(head.parent) && head.key == old(head.key) && head.left == null
    {
      CellsAllocated(n);
      PathAllocated(c);
      ShrinkCells(n, side);
      var top := p.parent;
      q := ShrinkTurn(p, side, n);
      ghost var f := Shrink(n, side);
      Replace(top, p, q, c, f);
    }

    /** One iteration of the climb at `p`, which has lost a level on `side`. */
    method ShrinkStep(p: AvlNode<K>, side: int, ghost c: Path<K>, ghost n: Shape<K>)
      returns (x: AvlNode<K>, shorter: bool)
      requires At(c, n, head) && Shrinkable(n, side) && p == n.ref && head.left == null
      modifies head, CtxCells(c), Cells(n)
      ensures At(c, Shrink(n, side), head) && x == Shrink(n, side).ref
      ensures shorter <==> StillShorter(n, side)
      ensures head.parent == old(head.parent) && head.key == old(head.key) && head.left == null
    {
      assert Rep(n.left) && Rep(n.right);
      x := p;
      if p.Balance() == 0 {
        SetBalance(p, -side, c, n, head);
        shorter := false;
      } else if p.Balance() == side {
        SetBalance(p, 0, c, n, head);
        shorter := true;
      } else {
        var q := if side == 1 then p.left else p.right;
        shorter := q.Balance() != 0;
        x := ShrinkRotate(p, side, c, n);
      }
    }

    /** The same, as what it promises rather than what it builds. */
    method ShrinkAt(p: AvlNode<K>, side: int, ghost c: Path<K>, ghost n: Shape<K>)
      returns (x: AvlNode<K>, shorter: bool, ghost f: Shape<K>)
      requires At(c, n, head) && LostLevel(n, side) && p == n.ref && head.left == null
      modifies head, CtxCells(c), Cells(n)
      ensures At(c, f, head) && f.Node? && x == f.ref && Shrunk(n, side, f, shorter) && Cells(f) == Cells(n)
      ensures head.parent == old(head.parent) && head.key == old(head.key) && head.left == null
    {
      ShrinkShrinks(n, side);
      ShrinkCells(n, side);
      x, shorter := ShrinkStep(p, side, c, n);
      f := Shrink(n, side);
    }

    /** One iteration of the climb, with the step to the parent. */
    method ClimbOnce(p: AvlNode<K>, side: int, ghost c: Path<K>, ghost t: Shape<K>)
      returns (p': AvlNode<K>, side': int, shorter: bool, ghost f: Shape<K>)
      requires At(c, t, head) && !c.Top? && p == c.ref && side == JointSide(c) && head.left == null
      requires LostLevel(Joint(c, t), side)
      modifies head, CtxCells(c), Cells(t)
      ensures At(c.up, f, head) && p' == Hole(c.up, head) && (c.up.Top? || side' == JointSide(c.up))
      ensures Shrunk(Joint(c, t), side, f, shorter)
      ensures CtxCells(c.up) + Cells(f) == CtxCells(c) + Cells(t)
      ensures head.parent == old(head.parent) && head.key == old(head.key) && head.left == null
    {
      ghost var n := Joint(c, t);
      assert CtxCells(c.up) + Cells(n) == CtxCells(c) + Cells(t);
      Ascend(c.up, n, head);
      var x;
      x, shorter, f := ShrinkAt(p, side, c.up, n);
      p' := x.parent;
      side' := if x == p'.left then -1 else 1;
    }

    /** The climb: rebalances from the node `p` that has lost a level on `side` up to where it no longer shows. */
    method Climb(p0: AvlNode<K>, side0: int, ghost c0: Path<K>, ghost t0: Shape<K>,
                 ghost keys: seq<K>, ghost ranked: bool, ghost h: nat)
      returns (ghost whole: Shape<K>)
      requires At(c0, t0, head) && p0 == Hole(c0, head) && (c0.Top? || side0 == JointSide(c0))
      requires head.parent == null && head.left == null
      requires Climbing(c0, t0, true, keys, ranked, h)
      modifies head, CtxCells(c0), Cells(t0)
      ensures At(Top, whole, head) && Cells(whole) == CtxCells(c0) + Cells(t0)
      ensures head.parent == old(head.parent) && head.key == old(head.key) && head.left == null
      ensures Balanced(whole) && Keys(whole) == keys && Height(whole) <= h && (ranked ==> Ranked(whole))
    {
      var p, side, shorter := p0, side0, true;
      ghost var c, t := c0, t0;
      while shorter && p.parent != null
        invariant At(c, t, head) && p == Hole(c, head) && (c.Top? || side == JointSide(c))
        invariant CtxCells(c) + Cells(t) == CtxCells(c0) + Cells(t0)
        invariant Climbing(c, t, shorter, keys, ranked, h)
        invariant head.parent == null && head.key == old(head.key) && head.left == null
        decreases c
      {
        ClimbLost(c, t, keys, ranked, h);
        ghost var f;
        p, side, shorter, f := ClimbOnce(p, side, c, t);
        ClimbStep(c, t, f, shorter, keys, ranked, h);
        c, t := c.up, f;
      }
      ClimbEnd(c, t, shorter, keys, ranked, h);
      whole := Assembled(c, t);
    }

    /** What taking out the node `gone`, and with it the entry `k`, makes of the whole tree. */
    ghost predicate Removed(was: Shape<K>, whole: Shape<K>, k: K, gone: AvlNode<K>) {
      && Balanced(whole) && RemovesOne(Keys(was), Keys(whole), k)
      && Height(whole) <= Height(was) && (Ranked(was) ==> Ranked(whole))
      && gone in Cells(was) && Cells(whole) == Cells(was) - {gone}
    }

    /** What is left below and around a node is everything but that node. */
    lemma CellsWithout(x: AvlNode<K>, c: Path<K>, t: Shape<K>, was: set<AvlNode<K>>)
      requires At(c, t, head) && t.Node? && x == t.ref && was == CtxCells(c) + Cells(t)
      requires t.left.Leaf? || t.right.Leaf?
      ensures x in was && CtxCells(c) + Cells(Spliced(t)) == was - {x}
    {}

    /** The simple case: the node found has at most one child. */
    method RemoveSimple(x: AvlNode<K>, ghost c: Path<K>, ghost sub: Shape<K>)
      returns (freed: KeyPtr<K>, ghost whole: Shape<K>)
      requires At(Rerank(c, -1), sub, head) && sub.Node? && x == sub.ref && (sub.left.Leaf? || sub.right.Leaf?)
      requires Balanced(Plug(c, sub)) && head.parent == null && head.left == null
      modifies head, CtxCells(c), Cells(sub)
      ensures At(Top, whole, head) && freed == Key(sub.key) && Removed(Plug(c, sub), whole, sub.key, x)
      ensures head.parent == old(head.parent) && head.key == old(head.key) && head.left == null
    {
      ghost var low, was := Rerank(c, -1), Plug(c, sub);
      RerankKeeps(c, -1, 0);
      PlugCells(c, sub);
      SpliceStarts(c, sub);
      SpliceRemoves(c, sub);
      CellsWithout(x, low, sub, Cells(was));
      freed := x.key;
      var p, side := Unhook(x, low, sub);
      ghost var keys := Before(c) + Keys(Spliced(sub)) + After(c);
      whole := Climb(p, side, low, Spliced(sub), keys, Ranked(was), Height(was));
    }

    /** The complicated case: both children present, so the predecessor's node `y` goes instead. */
    method RemoveInner(x: AvlNode<K>, ghost c: Path<K>, ghost sub: Shape<K>)
      returns (freed: KeyPtr<K>, y: AvlNode<K>, ghost whole: Shape<K>)
      requires At(Rerank(c, -1), sub, head) && sub.Node? && x == sub.ref && sub.left.Node?
      requires Balanced(Plug(c, sub)) && head.parent == null && head.left == null
      modifies head, CtxCells(c), Cells(sub)
      ensures At(Top, whole, head) && freed == Key(sub.key) && Removed(Plug(c, sub), whole, sub.key, y)
      ensures exists inner, ySub :: Predecessor(sub, inner, ySub) && y == ySub.ref
      ensures head.parent == old(head.parent) && head.key == old(head.key) && head.left == null
    {
      ghost var was := Plug(c, sub);
      ghost var inner, ySub;
      y, inner, ySub := FindPredecessor(x, Rerank(c, -1), sub, head);
      ghost var path := SwappedPath(c, sub, inner, ySub.key);
      SwappedCells(c, sub, inner, ySub, path);
      SwapKeys(x, y, Rerank(c, -1), sub, inner, ySub, head);
      PredecessorStarts(c, sub, inner, ySub);
      PredecessorRemoves(c, sub, inner, ySub);
      freed, whole := RemovePredecessor(y, path, ySub.(key := sub.key), was);
    }

    /** The end of the complicated case: `y` holds the key to be freed and is spliced out. */
    method RemovePredecessor(y: AvlNode<K>, ghost path: Path<K>, ghost t: Shape<K>, ghost was: Shape<K>)
      returns (freed: KeyPtr<K>, ghost whole: Shape<K>)
      requires At(path, t, head) && t.Node? && y == t.ref && t.right.Leaf?
      requires Cells(was) == CtxCells(path) + Cells(t)
      requires Climbing(path, t.left, true, Before(path) + Keys(t.left) + After(path), Ranked(was), Height(was))
      requires RemovesOne(Keys(was), Before(path) + Keys(t.left) + After(path), t.key)
      requires head.parent == null && head.left == null
      modifies head, CtxCells(path), Cells(t)
      ensures At(Top, whole, head) && freed == Key(t.key) && Removed(was, whole, t.key, y)
      ensures head.parent == old(head.parent) && head.key == old(head.key) && head.left == null
    {
      CellsWithout(y, path, t, Cells(was));
      assert Holds(y, t.key, t.rank, t.bal) && Spliced(t) == t.left;
      freed := y.key;
      var p, side := Unhook(y, path, t);
      ghost var keys := Before(path) + Keys(t.left) + After(path);
      whole := Climb(p, side, path, t.left, keys, Ranked(was), Height(was));
    }

    /** Takes out the entry of the node `x` that the search has found; the node freed is `gone`. */
    method RemoveFound(x: AvlNode<K>, key: K, ghost c: Path<K>, ghost sub: Shape<K>)
      returns (freed: KeyPtr<K>, gone: AvlNode<K>, ghost whole: Shape<K>)
      requires At(Rerank(c, -1), sub, head) && sub.Node? && x == sub.ref && SearchPath(c, cmp, key)
      requires cmp(key, sub.key) == 0 && Balanced(Plug(c, sub)) && head.parent == null && head.left == null
      modifies head, CtxCells(c), Cells(sub)
      ensures At(Top, whole, head) && freed == Key(sub.key) && Removed(Plug(c, sub), whole, sub.key, gone)
      ensures Finds(Plug(c, sub), cmp, key)
      ensures head.parent == old(head.parent) && head.key == old(head.key) && head.left == null
    {
      FindsPlug(c, sub, cmp, key);
      if x.left != null && x.right != null {
        freed, gone, whole := RemoveInner(x, c, sub);
      } else {
        freed, whole := RemoveSimple(x, c, sub);
        gone := x;
      }
    }

    /** The end of a search that failed at `x`: what was lowered on the way down is raised again. */
    method Miss(x: AvlNode<K>, key: K, ghost c: Path<K>, ghost sub: Shape<K>)
      requires At(Rerank(c, -1), sub, head) && sub.Node? && x == sub.ref && SearchPath(c, cmp, key)
      requires cmp(key, sub.key) != 0 && SearchBelow(sub, cmp, key).Leaf?
      modifies CtxCells(c), x
      ensures At(Top, AfterMiss(Plug(c, sub), cmp, key), head)
      ensures !Finds(Plug(c, sub), cmp, key)
    {
      FindsPlug(c, sub, cmp, key);
      ghost var sub1 := sub;
      if cmp(key, x.key.value) > 0 {
        SetRank(x, x.Rank() + 1, Rerank(c, -1), sub, head);
        sub1 := sub.(rank := Wrap(sub.rank + 1));
      }
      AfterMissPlug(c, sub, cmp, key);
      assert AfterMiss(sub, cmp, key) == sub1;
      RestoreRanks(x, head, c, sub1);
    }

    /** The same, as what it makes of the whole tree. */
    method GiveUp(x: AvlNode<K>, key: K, ghost c: Path<K>, ghost sub: Shape<K>) returns (ghost whole: Shape<K>)
      requires At(Rerank(c, -1), sub, head) && sub.Node? && x == sub.ref && SearchPath(c, cmp, key)
      requires cmp(key, sub.key) != 0 && SearchBelow(sub, cmp, key).Leaf? && Balanced(Plug(c, sub))
      modifies CtxCells(c), x
      ensures whole == AfterMiss(Plug(c, sub), cmp, key) && At(Top, whole, head)
      ensures Balanced(whole) && Cells(whole) == Cells(Plug(c, sub)) && !Finds(Plug(c, sub), cmp, key)
    {
      whole := AfterMiss(Plug(c, sub), cmp, key);
      MissCells(Plug(c, sub), cmp, key);
      AfterMissKeeps(Plug(c, sub), cmp, key);
      Miss(x, key, c, sub);
    }

    /** Deletion as a change of the tree's value; order plays no part yet. */
    method DeleteNode(key: K) returns (found: bool, freed: KeyPtr<K>, gone: AvlNode?<K>)
      requires Linked() && Balanced(model)
      modifies this`model, head, Cells(model)
      ensures Linked() && Balanced(model)
      ensures found <==> Finds(old(model), cmp, key)
      ensures found ==>
        freed.Key? && cmp(key, freed.value) == 0 && gone != null && Removed(old(model), model, freed.value, gone)
      ensures !found ==> freed == Null && gone == null && model == AfterMiss(old(model), cmp, key)
      ensures !found ==> Cells(model) == old(Cells(model))
    {
      freed, gone := Null, null;
      if head.right == null {
        return false, Null, null;
      }
      var x;
      ghost var c, sub;
      x, found, c, sub := Seek(key);
      PlugCells(c, sub);
      if !found {
        model := GiveUp(x, key, c, sub);
      } else {
        freed, gone, model := RemoveFound(x, key, c, sub);
      }
    }

    /**
    Deletion takes out one entry that compares equal to the key, if there is one, hands that entry
    to the free function, frees one node and keeps every part of the invariant, right ranks
    included.  If there is none it reports failure and leaves everything as it was, except for one
    rank when the search ran off to the right (`AfterMiss`).
    */
    method Delete(key: K) returns (rc: int, freed: KeyPtr<K>, gone: AvlNode?<K>)
      requires Valid()
      modifies this, head, Cells(model)
      ensures Valid() && height == old(height)
      ensures rc == (if Present(cmp, old(Contents()), key) then 0 else -1)
      ensures rc == 0 ==>
        && freed.Key? && cmp(key, freed.value) == 0 && RemovesOne(old(Contents()), Contents(), freed.value)
        && (old(Ranked(model)) ==> Ranked(model))
        && gone != null && gone in old(Cells(model)) && Cells(model) == old(Cells(model)) - {gone}
      ensures rc == -1 ==> freed == Null && Contents() == old(Contents()) && model == AfterMiss(old(model), cmp, key)
      ensures rc == -1 ==> gone == null && Cells(model) == old(Cells(model))
    {
      FindsIffPresent(model, cmp, key);
      var found;
      found, freed, gone := DeleteNode(key);
      assert Size(model) == |Contents()|;
      if found {
        RemovesOneSorted(cmp, old(Contents()), Contents(), freed.value);
        length := length - 1;
        rc := 0;
      } else {
        AfterMissKeys(old(model), cmp, key);
        AfterMissKeeps(old(model), cmp, key);
        rc := -1;
      }
    }
  }
}
