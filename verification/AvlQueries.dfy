/**
Reading the tree: by index, by key, in order.  Every answer is stated against the sorted sequence
`Contents()`; answers that depend on ranks ask for right ranks and fewer than 2^30 entries.
*/
module AvlQueries {
  import opened AvlShape
  import opened AvlUpdate
  import opened AvlHeap
  import opened AvlTrees

  const ULONG_RANGE: int := 0x1_0000_0000_0000_0000

  /** The `unsigned long` that one addition or subtraction leaves: wrapped round once at most. */
  function ULong(n: int): (r: int)
    ensures -ULONG_RANGE <= n < 2 * ULONG_RANGE ==>
      0 <= r <= 0xFFFF_FFFF_FFFF_FFFF && (r - n) % 0x1_0000_0000_0000_0000 == 0
  {
    if n < 0 then n + ULONG_RANGE else if n >= ULONG_RANGE then n - ULONG_RANGE else n
  }

  /** The `m`-th entry of `s`, counted from 1, is the entry sought in `whole`; or there is none. */
  ghost predicate Counts<K>(whole: seq<K>, index: nat, s: seq<K>, m: int) {
    && (0 < m <= |s| <==> index < |whole|)
    && (0 < m <= |s| ==> whole[index] == s[m - 1])
  }

  lemma CountsBelow<K>(whole: seq<K>, index: nat, s: seq<K>, l: seq<K>, k: K, r: seq<K>, m: nat)
    requires s == l + [k] + r && Counts(whole, index, s, m)
    ensures m < |l| + 1 ==> Counts(whole, index, l, m)
    ensures m > |l| + 1 ==> Counts(whole, index, r, m - (|l| + 1))
    ensures m == |l| + 1 ==> index < |whole| && whole[index] == k
  {}

  /** `avl_get_by_index`: the entry at an index exactly when the index is below the length. */
  method GetByIndex<K(!new)>(tree: AvlTree<K>, index: nat) returns (rc: int, value: KeyPtr<K>)
    requires tree.Linked() && Ranked(tree.model) && Size(tree.model) < 0x4000_0000 && index < ULONG_RANGE
    ensures index < |tree.Contents()| ==> rc == 0 && value == Key(tree.Contents()[index])
    ensures index >= |tree.Contents()| ==> rc == -1 && value == Null
  {
    var p := tree.head.right;
    var m := ULong(index + 1);
    ghost var sub := tree.model;
    while true
      invariant Rep(sub) && p == Root(sub) && Ranked(sub) && Size(sub) < 0x4000_0000 && 0 <= m
      invariant Counts(tree.Contents(), index, Keys(sub), m)
      decreases sub
    {
      if p == null {
        return -1, Null;
      }
      RankExact(sub);
      CountsBelow(tree.Contents(), index, Keys(sub), Keys(sub.left), sub.key, Keys(sub.right), m);
      if m < p.Rank() {
        p, sub := p.left, sub.left;
      } else if m > p.Rank() {
        m := m - p.Rank();
        p, sub := p.right, sub.right;
      } else {
        return 0, p.key;
      }
    }
  }

  /** `avl_get_by_key`: an entry comparing equal to the key, exactly when there is one. */
  method GetByKey<K(!new)>(tree: AvlTree<K>, key: K) returns (rc: int, value: KeyPtr<K>)
    requires tree.Valid()
    ensures Present(tree.cmp, tree.Contents(), key) ==>
      rc == 0 && value.Key? && value.value in tree.Contents() && tree.cmp(key, value.value) == 0
    ensures !Present(tree.cmp, tree.Contents(), key) ==> rc == -1 && value == Null
  {
    FindsIffPresent(tree.model, tree.cmp, key);
    var x := tree.head.right;
    ghost var sub := tree.model;
    if x == null {
      return -1, Null;
    }
    while true
      invariant Rep(sub) && sub.Node? && x == sub.ref
      invariant Finds(tree.model, tree.cmp, key) <==> Finds(sub, tree.cmp, key)
      invariant forall k :: k in Keys(sub) ==> k in tree.Contents()
      decreases sub
    {
      var compareResult := tree.cmp(key, x.key.value);
      if compareResult < 0 {
        if x.left == null {
          return -1, Null;
        }
        x, sub := x.left, sub.left;
      } else if compareResult > 0 {
        if x.right == null {
          return -1, Null;
        }
        x, sub := x.right, sub.right;
      } else {
        return 0, x.key;
      }
    }
  }

  // ---------------------------------------------------------------- walking in order

  /** Memory seen from the `i`-th node. */
  lemma {:induction false} Focus<K(!new)>(tree: AvlTree<K>, i: nat) returns (c: Path<K>, sub: Shape<K>)
    requires tree.Linked() && i < Size(tree.model)
    ensures At(c, sub, tree.head) && sub.Node? && sub.ref == Refs(tree.model)[i]
    ensures |RefsBefore(c)| + Size(sub.left) == i
    ensures Refs(tree.model) == RefsBefore(c) + Refs(sub) + RefsAfter(c)
  {
    var split := SplitAt(tree.model, Top, i);
    c, sub := split.0, split.1;
    ComposeTop(c);
    ZipDown(c, Top, sub, tree.head);
    PlugRefs(c, sub);
  }

  /** The node after the one in view, among all nodes: the first on its right, or the first behind the hole. */
  lemma NextRef<R, K>(c: Ctx<R, K>, sub: Tree<R, K>, refs: seq<R>, i: nat)
    requires sub.Node? && refs == RefsBefore(c) + Refs(sub) + RefsAfter(c) && i == |RefsBefore(c)| + Size(sub.left)
    ensures sub.right.Node? ==> i + 1 < |refs| && refs[i + 1] == Refs(sub.right)[0]
    ensures sub.right.Leaf? ==>
      if RefsAfter(c) == [] then i + 1 == |refs| else i + 1 < |refs| && refs[i + 1] == RefsAfter(c)[0]
  {}

  /** The node before the one in view. */
  lemma PrevRef<R, K>(c: Ctx<R, K>, sub: Tree<R, K>, refs: seq<R>, i: nat)
    requires sub.Node? && refs == RefsBefore(c) + Refs(sub) + RefsAfter(c) && i == |RefsBefore(c)| + Size(sub.left)
    ensures sub.left.Node? ==> 0 < i && refs[i - 1] == Refs(sub.left)[Size(sub.left) - 1]
    ensures sub.left.Leaf? ==>
      if RefsBefore(c) == [] then i == 0 else 0 < i && refs[i - 1] == RefsBefore(c)[|RefsBefore(c)| - 1]
  {}

  /** Down the left edge of a subtree, to its first node. */
  method Leftmost<K>(start: AvlNode<K>, ghost t: Shape<K>) returns (node: AvlNode<K>)
    requires Rep(t) && t.Node? && start == t.ref
    ensures node == Refs(t)[0]
  {
    node := start;
    ghost var sub := t;
    while node.left != null
      invariant Rep(sub) && sub.Node? && node == sub.ref && Refs(sub)[0] == Refs(t)[0]
      decreases sub
    {
      node, sub := node.left, sub.left;
    }
  }

  method Rightmost<K>(start: AvlNode<K>, ghost t: Shape<K>) returns (node: AvlNode<K>)
    requires Rep(t) && t.Node? && start == t.ref
    ensures node == Refs(t)[Size(t) - 1]
  {
    node := start;
    ghost var sub := t;
    while node.right != null
      invariant Rep(sub) && sub.Node? && node == sub.ref && Refs(sub)[Size(sub) - 1] == Refs(t)[Size(t) - 1]
      decreases sub
    {
      node, sub := node.right, sub.right;
    }
  }

  /** `avl_get_first`: the node at index 0, if the tree is not empty. */
  method GetFirst<K(!new)>(tree: AvlTree<K>) returns (node: AvlNode?<K>)
    requires tree.Linked()
    ensures node == if tree.model.Leaf? then null else Refs(tree.model)[0]
  {
    node := tree.head.right;
    if node == null || node.key == Null {
      return null;
    }
    node := Leftmost(node, tree.model);
  }

  /** Up from the last node of `t0` until a parent is reached from the left. */
  method ClimbToNext<K>(start: AvlNode<K>, ghost head: AvlNode<K>, ghost c0: Path<K>, ghost t0: Shape<K>)
    returns (next: AvlNode?<K>)
    requires At(c0, t0, head) && t0.Node? && start == t0.ref && head.key == Null
    ensures next == if RefsAfter(c0) == [] then null else RefsAfter(c0)[0]
  {
    var node := start;
    var child := node;
    ghost var c, t := c0, t0;
    while node.parent != null && node.parent.key != Null
      invariant At(c, t, head) && t.Node? && node == child == t.ref && RefsAfter(c) == RefsAfter(c0)
      decreases c
    {
      node := node.parent;
      if child == node.left {
        return node;
      }
      assert c.InRight?;
      Ascend(c.up, Joint(c, t), head);
      c, t := c.up, Joint(c, t);
      child := node;
    }
    return null;
  }

  method ClimbToPrev<K>(start: AvlNode<K>, ghost head: AvlNode<K>, ghost c0: Path<K>, ghost t0: Shape<K>)
    returns (prev: AvlNode?<K>)
    requires At(c0, t0, head) && t0.Node? && start == t0.ref && head.key == Null
    ensures prev == if RefsBefore(c0) == [] then null else RefsBefore(c0)[|RefsBefore(c0)| - 1]
  {
    var node := start;
    var child := node;
    ghost var c, t := c0, t0;
    while node.parent != null && node.parent.key != Null
      invariant At(c, t, head) && t.Node? && node == child == t.ref && RefsBefore(c) == RefsBefore(c0)
      decreases c
    {
      node := node.parent;
      if child == node.right {
        return node;
      }
      assert c.InLeft?;
      Ascend(c.up, Joint(c, t), head);
      c, t := c.up, Joint(c, t);
      child := node;
    }
    return null;
  }

  /** `avl_get_next`: the node at the next index, NULL after the last. */
  method GetNext<K(!new)>(tree: AvlTree<K>, node: AvlNode<K>, ghost i: nat) returns (next: AvlNode?<K>)
    requires tree.Linked() && i < Size(tree.model) && node == Refs(tree.model)[i]
    ensures next == if i + 1 < Size(tree.model) then Refs(tree.model)[i + 1] else null
  {
    ghost var c, sub := Focus(tree, i);
    NextRef(c, sub, Refs(tree.model), i);
    if node.right != null {
      next := Leftmost(node.right, sub.right);
    } else {
      next := ClimbToNext(node, tree.head, c, sub);
    }
  }

  /** `avl_get_prev`: the node at the index before, NULL before the first. */
  method GetPrev<K(!new)>(tree: AvlTree<K>, node: AvlNode<K>, ghost i: nat) returns (prev: AvlNode?<K>)
    requires tree.Linked() && i < Size(tree.model) && node == Refs(tree.model)[i]
    ensures prev == if 0 < i then Refs(tree.model)[i - 1] else null
  {
    ghost var c, sub := Focus(tree, i);
    PrevRef(c, sub, Refs(tree.model), i);
    if node.left != null {
      prev := Rightmost(node.left, sub.left);
    } else {
      prev := ClimbToPrev(node, tree.head, c, sub);
    }
  }

  /** The node at an index holds the entry at that index. */
  lemma {:induction false} RefHolds<K>(t: Shape<K>, i: nat)
    requires Rep(t) && i < Size(t)
    ensures Refs(t)[i] in Cells(t) && Refs(t)[i].key == Key(Keys(t)[i])
  {
    if i < Size(t.left) {
      RefHolds(t.left, i);
    } else if i > Size(t.left) {
      RefHolds(t.right, i - Size(t.left) - 1);
    }
  }

  /** The `m`-th node from the left, in the left subtree, at the root or in the right subtree. */
  ghost function Nth<R, K>(t: Tree<R, K>, m: nat): R
    requires 1 <= m <= Size(t)
  {
    if m <= Size(t.left) then Nth(t.left, m)
    else if m == Size(t.left) + 1 then t.ref
    else Nth(t.right, m - Size(t.left) - 1)
  }

  lemma {:induction false} NthIsRef<R, K>(t: Tree<R, K>, m: nat)
    requires 1 <= m <= Size(t)
    ensures Nth(t, m) == Refs(t)[m - 1]
  {
    if m <= Size(t.left) {
      NthIsRef(t.left, m);
    } else if m > Size(t.left) + 1 {
      NthIsRef(t.right, m - Size(t.left) - 1);
    }
  }

  /** The node whose index is `m - 1`, found by ranks. */
  method NodeAt<K>(start: AvlNode?<K>, m0: nat, ghost t: Shape<K>) returns (node: AvlNode<K>)
    requires Rep(t) && start == Root(t) && Ranked(t) && 1 <= m0 <= Size(t) < 0x4000_0000
    ensures node == Refs(t)[m0 - 1]
  {
    NthIsRef(t, m0);
    node := start;
    var m := m0;
    ghost var sub := t;
    RankExact(sub);
    while m != node.Rank()
      invariant Rep(sub) && sub.Node? && node == sub.ref && Ranked(sub) && Size(sub) < 0x4000_0000
      invariant 1 <= m <= Size(sub) && Nth(sub, m) == Nth(t, m0)
      invariant sub.rank == Size(sub.left) + 1
      decreases sub
    {
      if m < node.Rank() {
        node, sub := node.left, sub.left;
      } else {
        m := m - node.Rank();
        node, sub := node.right, sub.right;
      }
      RankExact(sub);
    }
  }

  /** The calls a range asks for: entries `high - 1` down to `low`, numbered `high - low - 1` down to 0. */
  ghost predicate CountsDown<K>(s: seq<K>, low: nat, high: nat, calls: seq<(nat, K)>)
    requires low <= high <= |s|
  {
    && |calls| <= high - low
    && forall j :: 0 <= j < |calls| ==> calls[j] == (high - low - 1 - j, s[high - 1 - j])
  }

  /** Of three entries the range from 1 to 3: the last is called first and numbered 1, then the second, numbered 0. */
  lemma RangeOfThree(calls: seq<(nat, int)>)
    requires CountsDown([10, 20, 30], 1, 3, calls) && |calls| == 2
    ensures calls == [(1, 30), (0, 20)]
  {}

  ghost predicate AllAgree<K>(iterFun: (nat, K) -> int, calls: seq<(nat, K)>) {
    forall j :: 0 <= j < |calls| ==> iterFun(calls[j].0, calls[j].1) == 0
  }

  /**
  `avl_iterate_index_range`: calls back on the entries from `high - 1` down to `low` until a callback
  objects.  `calls` is the record of the calls made.
  */
  method IterateIndexRange<K(!new)>(tree: AvlTree<K>, iterFun: (nat, K) -> int, low: nat, high: nat)
    returns (rc: int, calls: seq<(nat, K)>)
    requires tree.Linked() && Ranked(tree.model) && tree.length == Size(tree.model) < 0x4000_0000
    requires low <= high && 1 <= high
    ensures high > tree.length ==> rc == -1 && calls == []
    ensures high <= tree.length ==> CountsDown(tree.Contents(), low, high, calls)
    ensures rc == 0 ==> |calls| == high - low && AllAgree(iterFun, calls)
    ensures rc != 0 && high <= tree.length ==> rc == -1 && EndsObjecting(iterFun, calls)
  {
    if high > tree.length {
      return -1, [];
    }
    CellsAllocated(tree.model);
    var node: AvlNode?<K> := NodeAt(tree.head.right, high, tree.model);
    rc, calls := CallDown(tree, iterFun, node, low, high);
  }

  /** All callbacks but the last agreed, and the last objected. */
  ghost predicate EndsObjecting<K>(iterFun: (nat, K) -> int, calls: seq<(nat, K)>) {
    && calls != [] && AllAgree(iterFun, calls[..|calls| - 1])
    && iterFun(calls[|calls| - 1].0, calls[|calls| - 1].1) != 0
  }

  /** The calls, beginning with the entry before `high`, whose node is given. */
  method CallDown<K(!new)>(tree: AvlTree<K>, iterFun: (nat, K) -> int, start: AvlNode?<K>, low: nat, high: nat)
    returns (rc: int, calls: seq<(nat, K)>)
    requires tree.Linked() && low <= high <= Size(tree.model) && 1 <= high && start == Refs(tree.model)[high - 1]
    ensures CountsDown(tree.Contents(), low, high, calls)
    ensures rc == 0 ==> |calls| == high - low && AllAgree(iterFun, calls)
    ensures rc != 0 ==> rc == -1 && EndsObjecting(iterFun, calls)
  {
    calls := [];
    var numLeft: nat := high - low;
    var node := start;
    while numLeft > 0
      invariant tree.Linked() && numLeft + |calls| == high - low
      invariant numLeft > 0 ==> node == Refs(tree.model)[low + numLeft - 1]
      invariant CountsDown(tree.Contents(), low, high, calls) && AllAgree(iterFun, calls)
    {
      CellsAllocated(tree.model);
      RefHolds(tree.model, low + numLeft - 1);
      numLeft := numLeft - 1;
      var key := node.key.value;
      calls := calls + [(numLeft, key)];
      if iterFun(numLeft, key) != 0 {
        return -1, calls;
      }
      node := GetPrev(tree, node, low + numLeft);
    }
    return 0, calls;
  }

  // ---------------------------------------------------------------- by key

  /** How many entries of the whole come before those of the subtree in view that are not less than `key`. */
  lemma {:induction false} SearchCount<R, K(!new)>(c: Ctx<R, K>, t: Tree<R, K>, cmp: (K, K) -> int, key: K)
    requires SearchPath(c, cmp, key) && TotalPreorder(cmp) && Sorted(cmp, Keys(Plug(c, t)))
    ensures CountLess(cmp, Keys(Plug(c, t)), key) == |Before(c)| + Slot(t, cmp, key)
  {
    SearchIsInsert(c, cmp, key);
    SlotPlug(c, t, cmp, key);
    SlotIsCountLess(Plug(c, t), cmp, key);
  }

  lemma {:induction false} SearchIsInsert<R, K>(c: Ctx<R, K>, cmp: (K, K) -> int, key: K)
    requires SearchPath(c, cmp, key)
    ensures InsertPath(c, cmp, key)
  {
    if !c.Top? { SearchIsInsert(c.up, cmp, key); }
  }

  /** The descent of `avl_get_index_by_key`: `m` counts the entries up to and including `x`. */
  method SeekIndex<K>(root: AvlNode<K>, cmp: (K, K) -> int, key: K, ghost whole: Shape<K>)
    returns (node: AvlNode?<K>, position: int, ghost c: Path<K>, ghost sub: Shape<K>)
    requires Rep(whole) && whole.Node? && root == whole.ref && Ranked(whole) && Size(whole) < 0x4000_0000
    ensures Plug(c, sub) == whole && SearchPath(c, cmp, key) && sub.Node?
    ensures node != null ==> node == sub.ref && cmp(key, sub.key) == 0 && position == |Before(c)| + Size(sub.left)
    ensures node == null ==>
      && cmp(key, sub.key) != 0 && SearchBelow(sub, cmp, key).Leaf?
      && position == |Before(c)| + Slot(sub, cmp, key) - 1
  {
    var x := root;
    var m := x.Rank();
    c, sub := Top, whole;
    RankExact(sub);
    while true
      invariant Rep(sub) && sub.Node? && x == sub.ref && Ranked(sub) && Size(sub) < 0x4000_0000
      invariant Plug(c, sub) == whole && SearchPath(c, cmp, key)
      invariant x.Rank() == Size(sub.left) + 1 && m == |Before(c)| + x.Rank()
      decreases sub
    {
      var compareResult := cmp(key, x.key.value);
      if compareResult < 0 {
        if x.left == null {
          return null, m - 2, c, sub;
        }
        m := m - x.Rank();
        x := x.left;
        c, sub := ToLeft(c, sub), sub.left;
        RankExact(sub);
        m := m + x.Rank();
      } else if compareResult > 0 {
        if x.right == null {
          return null, m - 1, c, sub;
        }
        x := x.right;
        c, sub := ToRight(c, sub), sub.right;
        RankExact(sub);
        m := m + x.Rank();
      } else {
        return x, m - 1, c, sub;
      }
    }
  }

  lemma {:induction false} PlugAt<R, K>(c: Ctx<R, K>, sub: Tree<R, K>, i: nat)
    requires sub.Node? && i == |Before(c)| + Size(sub.left)
    ensures i < Size(Plug(c, sub)) && Keys(Plug(c, sub))[i] == sub.key && Refs(Plug(c, sub))[i] == sub.ref
  {
    PlugKeys(c, sub);
    PlugRefs(c, sub);
  }

  /** The descent's answer, as an unsigned index into the whole. */
  method LocateKey<K>(root: AvlNode<K>, cmp: (K, K) -> int, key: K, ghost whole: Shape<K>)
    returns (node: AvlNode?<K>, index: int, ghost c: Path<K>, ghost sub: Shape<K>)
    requires Rep(whole) && whole.Node? && root == whole.ref && Ranked(whole) && Size(whole) < 0x4000_0000
    ensures Plug(c, sub) == whole && SearchPath(c, cmp, key) && sub.Node?
    ensures node != null ==>
      0 <= index < Size(whole) && node == Refs(whole)[index] && cmp(key, Keys(whole)[index]) == 0
    ensures node == null ==>
      && cmp(key, sub.key) != 0 && SearchBelow(sub, cmp, key).Leaf?
      && index == ULong(|Before(c)| + Slot(sub, cmp, key) - 1)
  {
    var position;
    node, position, c, sub := SeekIndex(root, cmp, key, whole);
    index := ULong(position);
    if node != null {
      PlugAt(c, sub, position);
    }
  }

  /**
  `avl_get_index_by_key`: the node of an equal entry and its index, or NULL and the index of the
  closest smaller entry (-1, as an unsigned long, if there is none).  In an empty tree the index is
  not set: it stays what it was, `unset`.
  */
  method GetIndexByKey<K(!new)>(tree: AvlTree<K>, key: K, unset: int) returns (node: AvlNode?<K>, index: int)
    requires tree.Valid() && Ranked(tree.model) && tree.length < 0x4000_0000
    ensures node != null ==>
      0 <= index < tree.length && node == Refs(tree.model)[index] && tree.cmp(key, tree.Contents()[index]) == 0
    ensures node == null ==>
      && !Present(tree.cmp, tree.Contents(), key)
      && index == if tree.length == 0 then unset else ULong(CountLess(tree.cmp, tree.Contents(), key) - 1)
  {
    if tree.head.right == null {
      return null, unset;
    }
    ghost var c, sub;
    node, index, c, sub := LocateKey(tree.head.right, tree.cmp, key, tree.model);
    if node == null {
      NotFound(c, sub, tree.cmp, key);
    }
  }

  /** A search that runs off the tree: the key is absent, and the place it ran off is its place. */
  lemma {:induction false} NotFound<R, K(!new)>(c: Ctx<R, K>, sub: Tree<R, K>, cmp: (K, K) -> int, key: K)
    requires SearchPath(c, cmp, key) && TotalPreorder(cmp) && Sorted(cmp, Keys(Plug(c, sub)))
    requires sub.Node? && cmp(key, sub.key) != 0 && SearchBelow(sub, cmp, key).Leaf?
    ensures !Present(cmp, Keys(Plug(c, sub)), key)
    ensures CountLess(cmp, Keys(Plug(c, sub)), key) == |Before(c)| + Slot(sub, cmp, key)
  {
    FindsIffPresent(Plug(c, sub), cmp, key);
    FindsPlug(c, sub, cmp, key);
    SearchCount(c, sub, cmp, key);
  }

  /** Back from index `m` over entries equal to the key. */
  method SpanLeft<K(!new)>(tree: AvlTree<K>, node: AvlNode<K>, key: K, m: nat) returns (i: nat)
    requires tree.Linked() && m < Size(tree.model) && node == Refs(tree.model)[m]
    ensures i <= m && forall k :: i <= k < m ==> tree.cmp(key, tree.Contents()[k]) == 0
    ensures i > 0 ==> tree.cmp(key, tree.Contents()[i - 1]) != 0
  {
    CellsAllocated(tree.model);
    var left := GetPrev(tree, node, m);
    i := m;
    while left != null && i > 0
      invariant tree.Linked() && i <= m && left == if i > 0 then Refs(tree.model)[i - 1] else null
      invariant forall k :: i <= k < m ==> tree.cmp(key, tree.Contents()[k]) == 0
    {
      CellsAllocated(tree.model);
      RefHolds(tree.model, i - 1);
      if tree.cmp(key, left.key.value) != 0 {
        break;
      }
      left := GetPrev(tree, left, i - 1);
      i := i - 1;
    }
  }

  /** Forward from index `m` over entries equal to the key; `j` is the last of them. */
  method SpanRight<K(!new)>(tree: AvlTree<K>, node: AvlNode<K>, key: K, m: nat) returns (j: nat)
    requires tree.Linked() && m < Size(tree.model) == tree.length && node == Refs(tree.model)[m]
    ensures m <= j < tree.length && forall k :: m < k <= j ==> tree.cmp(key, tree.Contents()[k]) == 0
    ensures j + 1 < tree.length ==> tree.cmp(key, tree.Contents()[j + 1]) != 0
  {
    CellsAllocated(tree.model);
    var right := GetNext(tree, node, m);
    j := m;
    while right != null && j <= tree.length
      invariant tree.Linked() && m <= j < tree.length
      invariant right == if j + 1 < tree.length then Refs(tree.model)[j + 1] else null
      invariant forall k :: m < k <= j ==> tree.cmp(key, tree.Contents()[k]) == 0
      decreases tree.length - j
    {
      CellsAllocated(tree.model);
      RefHolds(tree.model, j + 1);
      if tree.cmp(key, right.key.value) != 0 {
        break;
      }
      right := GetNext(tree, right, j + 1);
      j := j + 1;
    }
  }

  lemma {:induction false} SpanExact<K(!new)>(cmp: (K, K) -> int, s: seq<K>, key: K, m: nat, i: nat, j: nat, k: nat)
    requires TotalPreorder(cmp) && Sorted(cmp, s) && i <= m <= j < |s| && cmp(key, s[m]) == 0 && k < |s|
    requires i > 0 ==> cmp(key, s[i - 1]) != 0
    requires j + 1 < |s| ==> cmp(key, s[j + 1]) != 0
    ensures cmp(key, s[k]) == 0 ==> i <= k <= j
  {
    if k < i {
      Transitive(cmp, s[i - 1], s[m], key);
      assert Chain(key, s[k], s[i - 1]);
    } else if k > j {
      Transitive(cmp, key, s[m], s[j + 1]);
      assert Chain(s[j + 1], s[k], key);
    }
  }

  /**
  `avl_get_span_by_key`: the half-open range of the entries equal to the key.  With no such entry
  both ends are the index of the closest smaller entry, as `avl_get_index_by_key` reports it; in an
  empty tree both are what the local variable happened to hold, `unset`.
  */
  method GetSpanByKey<K(!new)>(tree: AvlTree<K>, key: K, unset: int) returns (low: int, high: int)
    requires tree.Valid() && Ranked(tree.model) && tree.length < 0x4000_0000
    ensures Present(tree.cmp, tree.Contents(), key) ==>
      && 0 <= low < high <= tree.length
      && forall k :: 0 <= k < tree.length ==> (tree.cmp(key, tree.Contents()[k]) == 0 <==> low <= k < high)
    ensures !Present(tree.cmp, tree.Contents(), key) ==>
      low == high == if tree.length == 0 then unset else ULong(CountLess(tree.cmp, tree.Contents(), key) - 1)
  {
    CellsAllocated(tree.model);
    var node, m := GetIndexByKey(tree, key, unset);
    if node != null {
      low, high := EqualSpan(tree, node, key, m);
    } else {
      low, high := m, m;
    }
  }

  /** The range of the entries equal to the key, found from one of them. */
  method EqualSpan<K(!new)>(tree: AvlTree<K>, node: AvlNode<K>, key: K, m: nat) returns (low: nat, high: nat)
    requires tree.Valid() && m < tree.length && node == Refs(tree.model)[m] && tree.cmp(key, tree.Contents()[m]) == 0
    ensures low <= m < high <= tree.length
    ensures forall k :: 0 <= k < tree.length ==> (tree.cmp(key, tree.Contents()[k]) == 0 <==> low <= k < high)
  {
    CellsAllocated(tree.model);
    low := SpanLeft(tree, node, key, m);
    var j := SpanRight(tree, node, key, m);
    high := j + 1;
    ghost var s := tree.Contents();
    forall k | 0 <= k < |s| ensures tree.cmp(key, s[k]) == 0 ==> low <= k <= j {
      SpanExact(tree.cmp, s, key, m, low, j, k);
    }
  }

  /** The first entry equal to the key is the first that is not less than it. */
  lemma {:induction false} LowExact<K(!new)>(cmp: (K, K) -> int, s: seq<K>, key: K, m: nat, i: nat)
    requires TotalPreorder(cmp) && Sorted(cmp, s) && i <= m < |s| && cmp(key, s[m]) == 0 && cmp(key, s[i]) == 0
    requires i > 0 ==> cmp(key, s[i - 1]) != 0
    ensures i == CountLess(cmp, s, key)
  {
    SortedSplit(cmp, s, key, i);
    if i > 0 {
      Transitive(cmp, s[i - 1], s[m], key);
      SortedSplit(cmp, s, key, i - 1);
    }
  }

  /** The last entry equal to the key is the last that is not greater than it. */
  lemma {:induction false} HighExact<K(!new)>(cmp: (K, K) -> int, s: seq<K>, key: K, m: nat, j: nat, k: nat)
    requires TotalPreorder(cmp) && Sorted(cmp, s) && m <= j < |s| && k < |s|
    requires cmp(key, s[m]) == 0 && cmp(key, s[j]) == 0
    requires j + 1 < |s| ==> cmp(key, s[j + 1]) != 0
    ensures cmp(key, s[k]) >= 0 <==> k <= j
  {
    if k < j {
      Transitive(cmp, s[k], s[j], key);
    } else if k > j {
      Transitive(cmp, key, s[m], s[j + 1]);
      if k > j + 1 && cmp(key, s[k]) >= 0 {
        Transitive(cmp, s[j + 1], s[k], key);
      }
    }
  }

  /** The index of the first entry not less than the key. */
  method LowEnd<K(!new)>(tree: AvlTree<K>, key: K, unset: int) returns (i: int)
    requires tree.Valid() && Ranked(tree.model) && tree.length < 0x4000_0000
    ensures i == if tree.length == 0 then ULong(unset + 1) else CountLess(tree.cmp, tree.Contents(), key)
  {
    CellsAllocated(tree.model);
    var node, m := GetIndexByKey(tree, key, unset);
    if node == null {
      return ULong(m + 1);
    }
    i := SpanLeft(tree, node, key, m);
    LowExact(tree.cmp, tree.Contents(), key, m, i);
  }

  /** The index of the last entry equal to the key if there is one, else of the first greater one. */
  method HighEnd<K(!new)>(tree: AvlTree<K>, key: K, unset: int) returns (j: int)
    requires tree.Valid() && Ranked(tree.model) && tree.length < 0x4000_0000
    ensures UpperEnd(tree.cmp, tree.Contents(), key, j, unset)
  {
    CellsAllocated(tree.model);
    var node, m := GetIndexByKey(tree, key, unset);
    if node == null {
      j := ULong(m + 1);
    } else {
      j := LastEqual(tree, node, key, m);
    }
  }

  /** The last entry equal to the key, found from one of them. */
  method LastEqual<K(!new)>(tree: AvlTree<K>, node: AvlNode<K>, key: K, m: nat) returns (j: nat)
    requires tree.Valid() && m < tree.length && node == Refs(tree.model)[m] && tree.cmp(key, tree.Contents()[m]) == 0
    ensures Present(tree.cmp, tree.Contents(), key) && UpperEnd(tree.cmp, tree.Contents(), key, j, 0)
  {
    CellsAllocated(tree.model);
    j := SpanRight(tree, node, key, m);
    ghost var s := tree.Contents();
    assert tree.cmp(key, s[j]) == 0;
    forall k | 0 <= k < |s| ensures tree.cmp(key, s[k]) >= 0 <==> k <= j {
      HighExact(tree.cmp, s, key, m, j, k);
    }
  }

  /** The upper end of a range: the last entry equal to the key, or, with none, how many entries are less. */
  ghost predicate UpperEnd<K>(cmp: (K, K) -> int, s: seq<K>, key: K, j: int, unset: int) {
    if Present(cmp, s, key) then
      && 0 <= j < |s| && cmp(key, s[j]) == 0
      && forall k :: 0 <= k < |s| ==> (cmp(key, s[k]) >= 0 <==> k <= j)
    else j == if s == [] then ULong(unset + 1) else CountLess(cmp, s, key)
  }

  /** The entries between two keys, both included. */
  ghost predicate Between<K>(cmp: (K, K) -> int, low: K, high: K, e: K) { cmp(low, e) <= 0 && cmp(high, e) >= 0 }

  /** Read as half-open, the range is exactly the entries between the two keys. */
  ghost predicate HalfOpen<K>(cmp: (K, K) -> int, s: seq<K>, a: K, b: K, low: int, high: int) {
    forall k :: 0 <= k < |s| ==> (Between(cmp, a, b, s[k]) <==> low <= k < high)
  }

  /** Read with both ends included, the range is exactly the entries between the two keys. */
  ghost predicate Closed<K>(cmp: (K, K) -> int, s: seq<K>, a: K, b: K, low: int, high: int) {
    forall k :: 0 <= k < |s| ==> (Between(cmp, a, b, s[k]) <==> low <= k <= high)
  }

  /** With the larger key absent its end is excluded; with it present the end is an entry in the range. */
  lemma {:induction false} EndsSpan<K(!new)>(cmp: (K, K) -> int, s: seq<K>, a: K, b: K, low: int, high: int, unset: int)
    requires TotalPreorder(cmp) && Sorted(cmp, s) && cmp(a, b) <= 0
    requires (s != [] ==> low == CountLess(cmp, s, a)) && UpperEnd(cmp, s, b, high, unset)
    ensures Spans(cmp, s, a, b, low, high)
    ensures HalfOpen(cmp, s, a, b, low, high) <==> !Present(cmp, s, b)
    ensures Present(cmp, s, b) ==> Closed(cmp, s, a, b, low, high)
  {
    forall k | 0 <= k < |s| ensures cmp(a, s[k]) <= 0 <==> low <= k {
      SortedSplit(cmp, s, a, k);
    }
    if Present(cmp, s, b) {
      Transitive(cmp, a, b, s[high]);
      assert Between(cmp, a, b, s[high]);
    } else {
      forall k | 0 <= k < |s| ensures cmp(b, s[k]) >= 0 <==> k < high {
        SortedSplit(cmp, s, b, k);
        assert cmp(b, s[k]) != 0;
      }
    }
  }

  /**
  `avl_get_span_by_two_keys`: the range of the entries between the two keys, given in either order.
  It is half-open if and only if the larger key is absent; if that is present, the upper end is the
  index of the last entry equal to it, and included.  `unset` is as for one key.
  */
  method GetSpanByTwoKeys<K(!new)>(tree: AvlTree<K>, lowKey: K, highKey: K, unsetLow: int, unsetHigh: int)
    returns (low: int, high: int)
    requires tree.Valid() && Ranked(tree.model) && tree.length < 0x4000_0000
    ensures tree.cmp(lowKey, highKey) <= 0 ==> Spans(tree.cmp, tree.Contents(), lowKey, highKey, low, high)
    ensures tree.cmp(lowKey, highKey) > 0 ==> Spans(tree.cmp, tree.Contents(), highKey, lowKey, low, high)
    ensures tree.length == 0 ==> low == ULong(unsetLow + 1) && high == ULong(unsetHigh + 1)
  {
    var a, b := lowKey, highKey;
    if tree.cmp(lowKey, highKey) > 0 {
      a, b := highKey, lowKey;
    }
    CellsAllocated(tree.model);
    low := LowEnd(tree, a, unsetLow);
    high := HighEnd(tree, b, unsetHigh);
    EndsSpan(tree.cmp, tree.Contents(), a, b, low, high, unsetHigh);
  }

  /**
  The ends of the range between `a` and `b`: how many entries are less than `a`; and the last entry
  equal to `b`, then included, or how many entries are less than `b`, then excluded.
  */
  ghost predicate Spans<K>(cmp: (K, K) -> int, s: seq<K>, a: K, b: K, low: int, high: int) {
    s != [] ==>
      && low == CountLess(cmp, s, a)
      && (HalfOpen(cmp, s, a, b, low, high) <==> !Present(cmp, s, b))
      && if Present(cmp, s, b) then 0 <= high < |s| && cmp(b, s[high]) == 0 && Closed(cmp, s, a, b, low, high)
         else high == CountLess(cmp, s, b)
  }

  /** A tree of one entry: the span from that key to itself is (0, 0), which read as half-open is empty. */
  method SpanOfOne() returns (tree: AvlTree<int>, low: int, high: int)
    ensures fresh(tree) && tree.Valid() && tree.Contents() == [5] && low == high == 0
    ensures Between(tree.cmp, 5, 5, 5) && !HalfOpen(tree.cmp, tree.Contents(), 5, 5, low, high)
  {
    tree := TreeOfOne();
    low, high := GetSpanByTwoKeys(tree, 5, 5, 0, 0);
    assert tree.Contents()[0] == 5;
  }

  method TreeOfOne() returns (tree: AvlTree<int>)
    ensures fresh(tree) && fresh(Cells(tree.model)) && tree.Valid() && Ranked(tree.model) && tree.Contents() == [5]
    ensures tree.length == 1 && tree.cmp(5, 5) == 0
  {
    tree := new AvlTree<int>((a: int, b: int) => a - b);
    var _ := tree.Insert(5);
  }

  /** `v` is a greatest entry not above the key. */
  ghost predicate Floor<K>(cmp: (K, K) -> int, s: seq<K>, key: K, v: K) {
    && v in s && cmp(key, v) >= 0
    && forall i :: 0 <= i < |s| && cmp(key, s[i]) >= 0 ==> cmp(s[i], v) <= 0
  }

  /** `v` is a least entry not below the key. */
  ghost predicate Ceiling<K>(cmp: (K, K) -> int, s: seq<K>, key: K, v: K) {
    && v in s && cmp(key, v) <= 0
    && forall i :: 0 <= i < |s| && cmp(key, s[i]) <= 0 ==> cmp(v, s[i]) <= 0
  }

  /** The last key before the hole and the first after it: what a search remembers. */
  ghost function LastBefore<R, K>(c: Ctx<R, K>): KeyPtr<K> {
    if Before(c) == [] then Null else Key(Before(c)[|Before(c)| - 1])
  }

  ghost function FirstAfter<R, K>(c: Ctx<R, K>): KeyPtr<K> {
    if After(c) == [] then Null else Key(After(c)[0])
  }

  /** The descent of `avl_get_item_by_key_most`, remembering the last smaller entry. */
  method SeekMost<K>(root: AvlNode?<K>, cmp: (K, K) -> int, key: K, ghost whole: Shape<K>)
    returns (value: KeyPtr<K>, exact: bool, ghost c: Path<K>, ghost sub: Shape<K>)
    requires Rep(whole) && root == Root(whole)
    ensures Plug(c, sub) == whole && SearchPath(c, cmp, key)
    ensures exact ==> sub.Node? && value == Key(sub.key) && cmp(key, sub.key) == 0
    ensures !exact ==> sub.Leaf? && value == LastBefore(c)
  {
    var x := root;
    value := Null;
    c, sub := Top, whole;
    while x != null
      invariant Rep(sub) && x == Root(sub) && Plug(c, sub) == whole && SearchPath(c, cmp, key)
      invariant value == LastBefore(c)
      decreases sub
    {
      var compareResult := cmp(key, x.key.value);
      if compareResult == 0 {
        return x.key, true, c, sub;
      } else if compareResult < 0 {
        c, sub := ToLeft(c, sub), sub.left;
        x := x.left;
      } else {
        value := x.key;
        c, sub := ToRight(c, sub), sub.right;
        x := x.right;
      }
    }
    exact := false;
  }

  /** The descent of `avl_get_item_by_key_least`, remembering the last larger entry. */
  method SeekLeast<K>(root: AvlNode?<K>, cmp: (K, K) -> int, key: K, ghost whole: Shape<K>)
    returns (value: KeyPtr<K>, exact: bool, ghost c: Path<K>, ghost sub: Shape<K>)
    requires Rep(whole) && root == Root(whole)
    ensures Plug(c, sub) == whole && SearchPath(c, cmp, key)
    ensures exact ==> sub.Node? && value == Key(sub.key) && cmp(key, sub.key) == 0
    ensures !exact ==> sub.Leaf? && value == FirstAfter(c)
  {
    var x := root;
    value := Null;
    c, sub := Top, whole;
    while x != null
      invariant Rep(sub) && x == Root(sub) && Plug(c, sub) == whole && SearchPath(c, cmp, key)
      invariant value == FirstAfter(c)
      decreases sub
    {
      var compareResult := cmp(key, x.key.value);
      if compareResult == 0 {
        return x.key, true, c, sub;
      } else if compareResult < 0 {
        value := x.key;
        c, sub := ToLeft(c, sub), sub.left;
        x := x.left;
      } else {
        c, sub := ToRight(c, sub), sub.right;
        x := x.right;
      }
    }
    exact := false;
  }

  /** An entry equal to the key is its own floor and ceiling. */
  lemma {:induction false} ExactAnswers<K(!new)>(cmp: (K, K) -> int, s: seq<K>, key: K, v: K)
    requires TotalPreorder(cmp) && v in s && cmp(key, v) == 0
    ensures Floor(cmp, s, key, v) && Ceiling(cmp, s, key, v)
  {
    forall i | 0 <= i < |s| ensures cmp(key, s[i]) >= 0 ==> cmp(s[i], v) <= 0 {
      assert Chain(s[i], key, v);
    }
    forall i | 0 <= i < |s| ensures cmp(key, s[i]) <= 0 ==> cmp(v, s[i]) <= 0 {
      assert Chain(v, key, s[i]);
    }
  }

  /** Where the search runs off, the entry just before is the floor ... */
  lemma {:induction false} GapFloor<K(!new)>(cmp: (K, K) -> int, b: seq<K>, a: seq<K>, key: K)
    requires TotalPreorder(cmp) && Sorted(cmp, b + a) && b != []
    requires forall i :: 0 <= i < |b| ==> cmp(key, b[i]) > 0
    requires forall i :: 0 <= i < |a| ==> cmp(key, a[i]) < 0
    ensures Floor(cmp, b + a, key, b[|b| - 1])
  {
    var s, v := b + a, b[|b| - 1];
    assert s[|b| - 1] == v && forall i :: |b| <= i < |s| ==> s[i] == a[i - |b|];
    forall i | 0 <= i < |s| && cmp(key, s[i]) >= 0
      ensures cmp(s[i], v) <= 0
    {
      if i == |b| - 1 { assert cmp(v, v) <= 0; } else { assert cmp(s[i], s[|b| - 1]) <= 0; }
    }
  }

  /** ... and the one just after is the ceiling. */
  lemma {:induction false} GapCeiling<K(!new)>(cmp: (K, K) -> int, b: seq<K>, a: seq<K>, key: K)
    requires TotalPreorder(cmp) && Sorted(cmp, b + a) && a != []
    requires forall i :: 0 <= i < |b| ==> cmp(key, b[i]) > 0
    requires forall i :: 0 <= i < |a| ==> cmp(key, a[i]) < 0
    ensures Ceiling(cmp, b + a, key, a[0])
  {
    var s, v := b + a, a[0];
    assert s[|b|] == v && forall i :: 0 <= i < |b| ==> s[i] == b[i];
    forall i | 0 <= i < |s| && cmp(key, s[i]) <= 0
      ensures cmp(v, s[i]) <= 0
    {
      if i == |b| { assert cmp(v, v) <= 0; } else { assert cmp(s[|b|], s[i]) <= 0; }
    }
  }

  lemma {:induction false} SearchGap<R, K(!new)>(c: Ctx<R, K>, cmp: (K, K) -> int, key: K)
    requires SearchPath(c, cmp, key) && TotalPreorder(cmp) && Sorted(cmp, Before(c) + After(c))
    ensures forall i :: 0 <= i < |Before(c)| ==> cmp(key, Before(c)[i]) > 0
    ensures forall i :: 0 <= i < |After(c)| ==> cmp(key, After(c)[i]) < 0
  {
    PlugLeaf(c);
    GapAbsent(c, cmp, key);
    SearchCount(c, Leaf, cmp, key);
    GapParts(cmp, Before(c), After(c), key);
  }

  lemma {:induction false} GapAbsent<R, K(!new)>(c: Ctx<R, K>, cmp: (K, K) -> int, key: K)
    requires SearchPath(c, cmp, key) && TotalPreorder(cmp) && Sorted(cmp, Keys(Plug(c, Leaf)))
    ensures !Present(cmp, Keys(Plug(c, Leaf)), key)
  {
    FindsPlug(c, Leaf, cmp, key);
    FindsIffPresent(Plug(c, Leaf), cmp, key);
  }

  lemma {:induction false} GapParts<K(!new)>(cmp: (K, K) -> int, b: seq<K>, a: seq<K>, key: K)
    requires TotalPreorder(cmp) && Sorted(cmp, b + a) && !Present(cmp, b + a, key) && CountLess(cmp, b + a, key) == |b|
    ensures forall i :: 0 <= i < |b| ==> cmp(key, b[i]) > 0
    ensures forall i :: 0 <= i < |a| ==> cmp(key, a[i]) < 0
  {
    var s := b + a;
    forall i | 0 <= i < |b| ensures cmp(key, b[i]) > 0 {
      assert s[i] == b[i];
    }
    forall i | 0 <= i < |a| ensures cmp(key, a[i]) < 0 {
      assert s[|b| + i] == a[i] && cmp(key, s[|b| + i]) != 0;
      SortedSplit(cmp, s, key, |b| + i);
    }
  }

  /** `avl_get_item_by_key_most`: a greatest entry <= key, or failure if every entry is larger. */
  method GetItemByKeyMost<K(!new)>(tree: AvlTree<K>, key: K) returns (rc: int, value: KeyPtr<K>)
    requires tree.Valid()
    ensures rc == 0 || rc == -1
    ensures rc == 0 ==> value.Key? && Floor(tree.cmp, tree.Contents(), key, value.value)
    ensures rc == -1 ==> value == Null && forall i :: 0 <= i < tree.length ==> tree.cmp(key, tree.Contents()[i]) < 0
  {
    var exact;
    ghost var c, sub;
    value, exact, c, sub := SeekMost(tree.head.right, tree.cmp, key, tree.model);
    if exact {
      ExactEnd(c, sub, tree.cmp, key);
    } else {
      GapEnd(c, tree.cmp, key);
    }
    rc := if value == Null then -1 else 0;
  }

  /** `avl_get_item_by_key_least`: a least entry >= key, or failure if every entry is smaller. */
  method GetItemByKeyLeast<K(!new)>(tree: AvlTree<K>, key: K) returns (rc: int, value: KeyPtr<K>)
    requires tree.Valid()
    ensures rc == 0 || rc == -1
    ensures rc == 0 ==> value.Key? && Ceiling(tree.cmp, tree.Contents(), key, value.value)
    ensures rc == -1 ==> value == Null && forall i :: 0 <= i < tree.length ==> tree.cmp(key, tree.Contents()[i]) > 0
  {
    var exact;
    ghost var c, sub;
    value, exact, c, sub := SeekLeast(tree.head.right, tree.cmp, key, tree.model);
    if exact {
      ExactEnd(c, sub, tree.cmp, key);
    } else {
      GapEnd(c, tree.cmp, key);
    }
    rc := if value == Null then -1 else 0;
  }

  /** What a search that ended at an equal entry knows about the key's floor and ceiling. */
  lemma {:induction false} ExactEnd<R, K(!new)>(c: Ctx<R, K>, sub: Tree<R, K>, cmp: (K, K) -> int, key: K)
    requires TotalPreorder(cmp) && sub.Node? && cmp(key, sub.key) == 0
    ensures Floor(cmp, Keys(Plug(c, sub)), key, sub.key) && Ceiling(cmp, Keys(Plug(c, sub)), key, sub.key)
  {
    PlugAt(c, sub, |Before(c)| + Size(sub.left));
    ExactAnswers(cmp, Keys(Plug(c, sub)), key, sub.key);
  }

  /** What a search that ran off the tree knows. */
  lemma {:induction false} GapEnd<R, K(!new)>(c: Ctx<R, K>, cmp: (K, K) -> int, key: K)
    requires SearchPath(c, cmp, key) && TotalPreorder(cmp) && Sorted(cmp, Keys(Plug(c, Leaf)))
    ensures GapAnswered(cmp, Keys(Plug(c, Leaf)), key, LastBefore(c), FirstAfter(c))
  {
    PlugLeaf(c);
    SearchGap(c, cmp, key);
    GapEnds(cmp, Before(c), After(c), key);
  }

  lemma PlugLeaf<R, K>(c: Ctx<R, K>)
    ensures Keys(Plug(c, Leaf)) == Before(c) + After(c)
  {
    PlugKeys(c, Leaf);
  }

  lemma {:induction false} GapEnds<K(!new)>(cmp: (K, K) -> int, b: seq<K>, a: seq<K>, key: K)
    requires TotalPreorder(cmp) && Sorted(cmp, b + a)
    requires forall i :: 0 <= i < |b| ==> cmp(key, b[i]) > 0
    requires forall i :: 0 <= i < |a| ==> cmp(key, a[i]) < 0
    ensures GapAnswered(cmp, b + a, key, if b == [] then Null else Key(b[|b| - 1]), if a == [] then Null else Key(a[0]))
  {
    if b != [] { GapFloor(cmp, b, a, key); }
    if a != [] { GapCeiling(cmp, b, a, key); }
    GapOpen(cmp, b, a, key);
  }

  lemma GapOpen<K>(cmp: (K, K) -> int, b: seq<K>, a: seq<K>, key: K)
    requires forall i :: 0 <= i < |b| ==> cmp(key, b[i]) > 0
    requires forall i :: 0 <= i < |a| ==> cmp(key, a[i]) < 0
    ensures b == [] ==> forall i :: 0 <= i < |b + a| ==> cmp(key, (b + a)[i]) < 0
    ensures a == [] ==> forall i :: 0 <= i < |b + a| ==> cmp(key, (b + a)[i]) > 0
  {
    if b == [] { assert b + a == a; }
    if a == [] { assert b + a == b; }
  }

  ghost predicate GapAnswered<K>(cmp: (K, K) -> int, s: seq<K>, key: K, before: KeyPtr<K>, after: KeyPtr<K>) {
    && (if before == Null then forall i :: 0 <= i < |s| ==> cmp(key, s[i]) < 0 else Floor(cmp, s, key, before.value))
    && (if after == Null then forall i :: 0 <= i < |s| ==> cmp(key, s[i]) > 0 else Ceiling(cmp, s, key, after.value))
  }
}
