/** Whole runs of the tree: any sequence of insertions and deletions, filling, and traversal. */
module AvlRuns {
  import opened AvlShape
  import opened AvlUpdate
  import opened AvlHeap
  import opened AvlTrees
  import opened AvlQueries

  datatype Op<K> = Put(key: K) | Drop(key: K)

  /** What one operation may make of the sorted sequence. */
  ghost predicate Follows<K(!new)>(cmp: (K, K) -> int, s: seq<K>, op: Op<K>, u: seq<K>) {
    match op
    case Put(k) => u == InsertAt(s, CountLess(cmp, s, k), k)
    case Drop(k) => if Present(cmp, s, k) then exists e :: cmp(k, e) == 0 && RemovesOne(s, u, e) else u == s
  }

  /** The trees a run went through, one more than there were operations. */
  ghost predicate Traces<K(!new)>(cmp: (K, K) -> int, ops: seq<Op<K>>, trace: seq<Shape<K>>) {
    |trace| == |ops| + 1 && forall i :: 0 <= i < |ops| ==> Follows(cmp, Keys(trace[i]), ops[i], Keys(trace[i + 1]))
  }

  /** An operation that leaves right ranks right: all do but a deletion whose search runs off to the right. */
  ghost predicate Spares<K(!new)>(cmp: (K, K) -> int, t: Shape<K>, op: Op<K>) {
    op.Drop? ==> Present(cmp, Keys(t), op.key) || MissesLeft(t, cmp, op.key)
  }

  ghost predicate RanksFollow<K(!new)>(cmp: (K, K) -> int, ops: seq<Op<K>>, trace: seq<Shape<K>>)
    requires |trace| == |ops| + 1
  {
    forall i :: 0 <= i < |ops| && Ranked(trace[i]) ==> (Ranked(trace[i + 1]) <==> Spares(cmp, trace[i], ops[i]))
  }

  lemma TracesStep<K(!new)>(cmp: (K, K) -> int, ops: seq<Op<K>>, trace: seq<Shape<K>>, op: Op<K>, u: Shape<K>)
    requires Traces(cmp, ops, trace) && Follows(cmp, Keys(trace[|ops|]), op, Keys(u))
    ensures Traces(cmp, ops + [op], trace + [u])
  {
    var ops', trace' := ops + [op], trace + [u];
    assert forall i :: 0 <= i < |ops| ==> ops'[i] == ops[i];
    assert forall i :: 0 <= i < |trace| ==> trace'[i] == trace[i];
  }

  lemma RanksStep<K(!new)>(cmp: (K, K) -> int, ops: seq<Op<K>>, trace: seq<Shape<K>>, op: Op<K>, u: Shape<K>)
    requires |trace| == |ops| + 1 && RanksFollow(cmp, ops, trace)
    requires Ranked(trace[|ops|]) ==> (Ranked(u) <==> Spares(cmp, trace[|ops|], op))
    ensures RanksFollow(cmp, ops + [op], trace + [u])
  {
    var ops', trace' := ops + [op], trace + [u];
    forall i | 0 <= i < |ops'| && Ranked(trace'[i])
      ensures Ranked(trace'[i + 1]) <==> Spares(cmp, trace'[i], ops'[i])
    {
      if i < |ops| {
        assert trace'[i] == trace[i] && trace'[i + 1] == trace[i + 1] && ops'[i] == ops[i];
      }
    }
  }

  method Apply<K(!new)>(tree: AvlTree<K>, op: Op<K>)
    requires tree.Valid()
    modifies tree, tree.head, Cells(tree.model)
    ensures tree.Valid() && fresh(Cells(tree.model) - old(Cells(tree.model)))
    ensures Follows(tree.cmp, old(tree.Contents()), op, tree.Contents())
    ensures old(Ranked(tree.model)) ==> (Ranked(tree.model) <==> Spares(tree.cmp, old(tree.model), op))
  {
    match op
    case Put(k) => var _ := tree.Insert(k);
    case Drop(k) =>
      ghost var was := tree.model;
      FindsIffPresent(was, tree.cmp, k);
      var rc, _, _ := tree.Delete(k);
      if rc == -1 && Ranked(was) {
        AfterMissRanked(was, tree.cmp, k);
      }
  }

  /**
  After any run the tree is ordered and balanced and holds what the reference holds; and as long as
  ranks are right, a step leaves them right exactly if it is not a deletion that runs off to the right.
  */
  method Run<K(!new)>(tree: AvlTree<K>, ops: seq<Op<K>>) returns (ghost trace: seq<Shape<K>>)
    requires tree.Valid()
    modifies tree, tree.head, Cells(tree.model)
    ensures tree.Valid() && fresh(Cells(tree.model) - old(Cells(tree.model)))
    ensures Traces(tree.cmp, ops, trace) && trace[0] == old(tree.model) && trace[|ops|] == tree.model
    ensures RanksFollow(tree.cmp, ops, trace)
  {
    trace := [tree.model];
    for n := 0 to |ops|
      invariant tree.Valid() && fresh(Cells(tree.model) - old(Cells(tree.model)))
      invariant Traces(tree.cmp, ops[..n], trace) && trace[0] == old(tree.model) && trace[n] == tree.model
      invariant RanksFollow(tree.cmp, ops[..n], trace)
    {
      CellsAllocated(tree.model);
      ghost var before := Cells(tree.model);
      label Step:
      Apply(tree, ops[n]);
      forall x | x in Cells(tree.model) && x !in old(Cells(tree.model)) ensures fresh(x) {
        if x !in before { assert x in Cells(tree.model) - before && !old@Step(allocated(x)); }
      }
      TracesStep(tree.cmp, ops[..n], trace, ops[n], tree.model);
      RanksStep(tree.cmp, ops[..n], trace, ops[n], tree.model);
      assert ops[..n + 1] == ops[..n] + [ops[n]];
      trace := trace + [tree.model];
    }
    assert ops[..|ops|] == ops;
  }

  /** If no deletion runs off to the right, ranks that were right at the start are right all along. */
  lemma {:induction false} RunRanked<K(!new)>(cmp: (K, K) -> int, ops: seq<Op<K>>, trace: seq<Shape<K>>, n: nat)
    requires |trace| == |ops| + 1 && RanksFollow(cmp, ops, trace) && Ranked(trace[0]) && n <= |ops|
    requires forall i :: 0 <= i < |ops| ==> Spares(cmp, trace[i], ops[i])
    ensures Ranked(trace[n])
  {
    if n > 0 { RunRanked(cmp, ops, trace, n - 1); }
  }

  /** Below 2^30 entries no right rank is anything but the true one, and all are between 1 and the length. */
  lemma {:induction false} RanksInRange<R, K>(t: Tree<R, K>, j: nat)
    requires Ranked(t) && Size(t) < 0x4000_0000 && j < Size(t)
    ensures 1 <= Ranks(t)[j] <= j + 1 <= Size(t)
  {
    RankExact(t);
    if j < Size(t.left) {
      RanksInRange(t.left, j);
    } else if j > Size(t.left) {
      RanksInRange(t.right, j - Size(t.left) - 1);
    }
  }

  /** A deletion of an absent key is not harmless: here it runs off to the right and spoils a rank. */
  lemma MissSpoilsRank<R>(r: R)
    ensures var t := Node(Leaf, r, 1, 1, 0, Leaf);
      var cmp := (a: int, b: int) => a - b;
      Ranked(t) && !Present(cmp, Keys(t), 2) && !Ranked(AfterMiss(t, cmp, 2))
  {
    var t := Node(Leaf, r, 1, 1, 0, Leaf);
    var cmp := (a: int, b: int) => a - b;
    assert AfterMiss(t, cmp, 2).rank == 2;
  }

  lemma InsertKeepsAll<K>(s: seq<K>, i: nat, k: K)
    requires i <= |s|
    ensures multiset(InsertAt(s, i, k)) == multiset(s) + multiset{k}
  {
    assert s == s[..i] + s[i..];
  }

  /** One more insertion into a tree filled by insertions alone. */
  method FillOne<K(!new)>(tree: AvlTree<K>, key: K)
    requires tree.Valid() && Ranked(tree.model) && Exact(tree)
    modifies tree, tree.head, Cells(tree.model)
    ensures tree.Valid() && Ranked(tree.model) && Exact(tree) && tree.model.Node?
    ensures multiset(tree.Contents()) == old(multiset(tree.Contents())) + multiset{key}
    ensures fresh(Cells(tree.model) - old(Cells(tree.model)))
  {
    ghost var s := tree.Contents();
    var _ := tree.Insert(key);
    InsertKeepsAll(s, CountLess(tree.cmp, s, key), key);
  }

  /** The stored height is one less than the real one, except in the empty tree, where both are 0. */
  ghost predicate Exact<K(!new)>(tree: AvlTree<K>)
    reads tree
  {
    if tree.model.Leaf? then tree.height == 0 else Height(tree.model) == tree.height + 1
  }

  lemma MultisetStep<K>(keys: seq<K>, n: nat)
    requires n < |keys|
    ensures multiset(keys[..n + 1]) == multiset(keys[..n]) + multiset{keys[n]}
  {
    assert keys[..n + 1] == keys[..n] + [keys[n]];
  }

  /** Filling a tree by insertions alone: nothing is lost, ranks are right, the height field is exact. */
  method Fill<K(!new)>(cmp: (K, K) -> int, keys: seq<K>) returns (tree: AvlTree<K>)
    requires TotalPreorder(cmp)
    ensures fresh(tree) && tree.Valid() && tree.cmp == cmp && Ranked(tree.model)
    ensures multiset(tree.Contents()) == multiset(keys)
    ensures keys != [] ==> Height(tree.model) == tree.height + 1
  {
    tree := new AvlTree<K>(cmp);
    for n := 0 to |keys|
      invariant fresh(tree) && fresh(tree.head) && fresh(Cells(tree.model)) && tree.cmp == cmp
      invariant tree.Valid() && Ranked(tree.model) && Exact(tree) && (n > 0 ==> tree.model.Node?)
      invariant multiset(tree.Contents()) == multiset(keys[..n])
    {
      CellsAllocated(tree.model);
      ghost var before := Cells(tree.model);
      label Step:
      FillOne(tree, keys[n]);
      forall x | x in Cells(tree.model) ensures fresh(x) {
        if x !in before { assert x in Cells(tree.model) - before && !old@Step(allocated(x)); }
      }
      MultisetStep(keys, n);
    }
    assert keys[..|keys|] == keys;
  }

  /** From the first node on, `avl_get_next` visits every entry once and in order, and stops. */
  method Traverse<K(!new)>(tree: AvlTree<K>) returns (keys: seq<K>)
    requires tree.Linked()
    ensures keys == tree.Contents()
  {
    keys := [];
    CellsAllocated(tree.model);
    var node := GetFirst(tree);
    while node != null
      invariant |keys| <= Size(tree.model) && keys == tree.Contents()[..|keys|]
      invariant node == if |keys| < Size(tree.model) then Refs(tree.model)[|keys|] else null
      decreases Size(tree.model) - |keys|
    {
      ghost var i := |keys|;
      RefHolds(tree.model, i);
      keys := keys + [node.key.value];
      assert keys == tree.Contents()[..i + 1];
      node := GetNext(tree, node, i);
    }
    assert tree.Contents()[..|keys|] == tree.Contents();
  }

  /** `avl_get_prev` undoes `avl_get_next`. */
  method NextThenPrev<K(!new)>(tree: AvlTree<K>, node: AvlNode<K>, ghost i: nat) returns (back: AvlNode?<K>)
    requires tree.Linked() && i + 1 < Size(tree.model) && node == Refs(tree.model)[i]
    ensures back == node
  {
    CellsAllocated(tree.model);
    var next := GetNext(tree, node, i);
    back := GetPrev(tree, next, i + 1);
  }
}
