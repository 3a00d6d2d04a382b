/**
The arithmetic on ranks, before it is cut to 30 bits: below 2^30 entries every sum and difference
that insertion and deletion store is the rank it should be, with nothing to cut off.
*/
module AvlRanks {
  import opened AvlShape
  import opened AvlUpdate

  ghost predicate InRange(r: int, length: nat) { 1 <= r <= length }

  /** What the single rotations store: `s - r` on the way to the right, `r + s` on the way to the left. */
  ghost predicate SingleInRange<R, K>(t: Tree<R, K>, length: nat) {
    t.Node? ==>
      && (t.left.Node? ==> InRange(t.rank - t.left.rank, length))
      && (t.right.Node? ==> InRange(t.right.rank + t.rank, length))
  }

  /** What the double rotations store, one after the other. */
  ghost predicate DoubleInRange<R, K>(t: Tree<R, K>, length: nat) {
    t.Node? ==>
      && (t.left.Node? && t.left.right.Node? ==>
            var q := t.left.right.rank + t.left.rank;
            InRange(q, length) && InRange(t.rank - q, length))
      && (t.right.Node? && t.right.left.Node? ==>
            InRange(t.right.rank - t.right.left.rank, length) && InRange(t.right.left.rank + t.rank, length))
  }

  lemma {:induction false} SingleExact<R, K>(t: Tree<R, K>, b: int, bTop: int)
    requires Ranked(t) && Size(t) < 0x4000_0000 && t.Node?
    ensures SingleInRange(t, Size(t))
    ensures t.left.Node? ==> RotateRight(t, b, bTop).right.rank == t.rank - t.left.rank
    ensures t.right.Node? ==> RotateLeft(t, b, bTop).rank == t.right.rank + t.rank
  {
    RankExact(t);
    if t.left.Node? { RankExact(t.left); }
    if t.right.Node? { RankExact(t.right); }
  }

  lemma {:induction false} DoubleExact<R, K>(t: Tree<R, K>)
    requires Ranked(t) && Size(t) < 0x4000_0000 && t.Node?
    ensures DoubleInRange(t, Size(t))
    ensures t.left.Node? && t.left.right.Node? ==>
      var q := t.left.right.rank + t.left.rank;
      DoubleRight(t).rank == q && DoubleRight(t).right.rank == t.rank - q
    ensures t.right.Node? && t.right.left.Node? ==>
      && DoubleLeft(t).right.rank == t.right.rank - t.right.left.rank
      && DoubleLeft(t).rank == t.right.left.rank + t.rank
  {
    if t.left.Node? && t.left.right.Node? { DoubleRightExact(t); }
    if t.right.Node? && t.right.left.Node? { DoubleLeftExact(t); }
  }

  lemma {:induction false} DoubleRightExact<R, K>(t: Tree<R, K>)
    requires Ranked(t) && Size(t) < 0x4000_0000 && t.Node? && t.left.Node? && t.left.right.Node?
    ensures var q := t.left.right.rank + t.left.rank;
      && InRange(q, Size(t)) && InRange(t.rank - q, Size(t))
      && DoubleRight(t).rank == q && DoubleRight(t).right.rank == t.rank - q
  {
    RankExact(t);
    RankExact(t.left);
    RankExact(t.left.right);
  }

  lemma {:induction false} DoubleLeftExact<R, K>(t: Tree<R, K>)
    requires Ranked(t) && Size(t) < 0x4000_0000 && t.Node? && t.right.Node? && t.right.left.Node?
    ensures InRange(t.right.rank - t.right.left.rank, Size(t)) && InRange(t.right.left.rank + t.rank, Size(t))
    ensures DoubleLeft(t).right.rank == t.right.rank - t.right.left.rank
    ensures DoubleLeft(t).rank == t.right.left.rank + t.rank
  {
    RankExact(t);
    RankExact(t.right);
    RankExact(t.right.left);
  }

  lemma {:induction false} SubtreeSize<R, K>(c: Ctx<R, K>, t: Tree<R, K>)
    ensures Size(t) <= Size(Plug(c, t))
  {
    match c
    case Top =>
    case InLeft(up, n, k, rk, b, r) => SubtreeSize(up, Node(t, n, k, rk, b, r));
    case InRight(up, l, n, k, rk, b) => SubtreeSize(up, Node(l, n, k, rk, b, t));
  }

  /** The rotation of an insertion, at the pivot, with the new node already counted. */
  lemma {:induction false} InsertionRotates<R, K>(outer: Ctx<R, K>, piv: Tree<R, K>, cmp: (K, K) -> int, key: K, q: R)
    requires Ranked(Plug(outer, piv)) && piv.Node? && Size(Plug(outer, piv)) + 1 < 0x4000_0000
    ensures var n, g := Size(Plug(outer, piv)) + 1, Pivot(piv, cmp, key, q);
      SingleInRange(g, n) && DoubleInRange(g, n)
  {
    var g := Pivot(piv, cmp, key, q);
    PlugRanked(outer, piv);
    PivotKeeps(piv, cmp, key, q);
    SubtreeSize(outer, piv);
    assert Size(g) == |Keys(g)| == Size(piv) + 1;
    SingleExact(g, 0, 0);
    DoubleExact(g);
  }

  /** Any rotation of the climb of a deletion, with the node taken out no longer counted. */
  lemma {:induction false} ClimbRotates<R, K>(c: Ctx<R, K>, t: Tree<R, K>, keys: seq<K>, h: nat)
    requires Climbing(c, t, true, keys, true, h) && !c.Top? && |keys| < 0x4000_0000
    ensures SingleInRange(Joint(c, t), |keys|) && DoubleInRange(Joint(c, t), |keys|)
  {
    var n := Joint(c, t);
    JointCounts(c, t, n, keys, h);
    SingleExact(n, 0, 0);
    DoubleExact(n);
  }

  lemma {:induction false} JointCounts<R, K>(c: Ctx<R, K>, t: Tree<R, K>, n: Tree<R, K>, keys: seq<K>, h: nat)
    requires Climbing(c, t, true, keys, true, h) && !c.Top? && n == Joint(c, t)
    ensures Ranked(n) && Size(n) <= |keys|
  {
    ClimbKeys(c, t, n);
    assert |Before(c.up) + Keys(n) + After(c.up)| == |keys|;
  }

  /** The rank raised by an insertion that passes `t` on the left counts the new node and is in range. */
  lemma {:induction false} InsertionRaises<R, K>(c: Ctx<R, K>, t: Tree<R, K>)
    requires Ranked(Plug(c, t)) && t.Node? && Size(Plug(c, t)) + 1 < 0x4000_0000
    ensures Wrap(t.rank + 1) == t.rank + 1 == Size(t.left) + 2 && InRange(t.rank + 1, Size(Plug(c, t)) + 1)
  {
    PlugRanked(c, t);
    SubtreeSize(c, t);
    RankExact(t);
  }

  /**
  The rank lowered by a deletion that passes `t` on the left never underflows; it stays in range
  exactly if there is something on the left.  Raising it again restores it.
  */
  lemma {:induction false} DeletionLowers<R, K>(c: Ctx<R, K>, t: Tree<R, K>)
    requires Ranked(Plug(c, t)) && t.Node? && Size(Plug(c, t)) < 0x4000_0000
    ensures Wrap(t.rank - 1) == t.rank - 1 == Size(t.left) >= 0
    ensures InRange(t.rank - 1, Size(Plug(c, t))) <==> t.left.Node?
    ensures InRange(Wrap(t.rank - 1) + 1, Size(Plug(c, t)))
  {
    PlugRanked(c, t);
    SubtreeSize(c, t);
    RankExact(t);
  }

  /** Whether a successful deletion lowers the rank of `t`: it goes left there, or takes the predecessor's key. */
  predicate Lowers<R, K>(t: Tree<R, K>, cmp: (K, K) -> int, key: K) {
    t.Node? && (cmp(key, t.key) < 0 || (cmp(key, t.key) == 0 && t.left.Node? && t.right.Node?))
  }

  /** Every rank that a successful deletion lowers is, lowered, between 1 and the new length. */
  lemma {:induction false} FoundLowers<R, K>(c: Ctx<R, K>, t: Tree<R, K>, cmp: (K, K) -> int, key: K)
    requires Ranked(Plug(c, t)) && Size(Plug(c, t)) < 0x4000_0000
    requires SearchPath(c, cmp, key) && Finds(Plug(c, t), cmp, key) && Lowers(t, cmp, key)
    ensures Wrap(t.rank - 1) == t.rank - 1 && InRange(t.rank - 1, Size(Plug(c, t)) - 1)
  {
    FindsPlug(c, t, cmp, key);
    DeletionLowers(c, t);
    SubtreeSize(c, t);
  }

  /** At the end of a search that runs off to the right, the rank raised is out of range by one, or wrong. */
  lemma {:induction false} MissRaises<R, K>(c: Ctx<R, K>, t: Tree<R, K>)
    requires Ranked(Plug(c, t)) && t.Node? && t.right.Leaf? && Size(Plug(c, t)) < 0x3FFF_FFFF
    ensures Wrap(t.rank + 1) == t.rank + 1 == Size(t.left) + 2
    ensures InRange(t.rank + 1, Size(Plug(c, t))) <==> Size(t) < Size(Plug(c, t))
  {
    PlugRanked(c, t);
    SubtreeSize(c, t);
    RankExact(t);
  }
}
