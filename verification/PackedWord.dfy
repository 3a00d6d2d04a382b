/**
The word `rank_and_balance`: two bits of balance factor (plus one) below thirty bits of rank, read
and written by the four macros of the tree's header.  A 32-bit unsigned word is the natural number
it denotes, and the bitwise operators are defined bit by bit on natural numbers.
*/
module PackedWord {
  import opened AvlShape

  const UINT_RANGE: int := 0x1_0000_0000

  type Word = w: nat | w < 0x1_0000_0000

  function UInt(n: int): Word { n % 0x1_0000_0000 }

  function And(a: nat, b: nat): nat {
    if a == 0 || b == 0 then 0
    else 2 * And(a / 2, b / 2) + (if a % 2 == 1 && b % 2 == 1 then 1 else 0)
  }

  function Or(a: nat, b: nat): nat {
    if a == 0 then b else if b == 0 then a
    else 2 * Or(a / 2, b / 2) + (if a % 2 == 1 || b % 2 == 1 then 1 else 0)
  }

  function ShiftLeft2(r: Word): Word { UInt(4 * r) }

  function GetBalance(w: nat): int { And(w, 3) - 1 }

  function GetRank(w: nat): nat { w / 4 }

  function SetBalance(w: Word, b: int): nat
    requires -1 <= b <= 1
  {
    Or(And(w, 0xFFFF_FFFC), b + 1)
  }

  function SetRank(w: Word, r: Word): nat { Or(And(w, 3), ShiftLeft2(r)) }

  lemma {:induction false} AndThree(w: nat)
    ensures And(w, 3) == w % 4
  {
    assert And(w / 2, 1) == (w / 2) % 2 by { assert And(w / 2 / 2, 0) == 0; }
    assert w % 4 == 2 * ((w / 2) % 2) + w % 2;
  }

  /** `n` ones. */
  function Mask(n: nat): nat { if n == 0 then 0 else 2 * Mask(n - 1) + 1 }

  lemma {:induction false} AndMask(x: nat, n: nat)
    requires x <= Mask(n)
    ensures And(x, Mask(n)) == x
  {
    if x != 0 { AndMask(x / 2, n - 1); }
  }

  lemma {:induction false} ThirtyOnes()
    ensures Mask(30) == 0x3FFF_FFFF
  {
    assert Mask(4) == 0xF && Mask(8) == 0xFF && Mask(12) == 0xFFF && Mask(16) == 0xFFFF;
    assert Mask(20) == 0xF_FFFF && Mask(24) == 0xFF_FFFF && Mask(28) == 0xFFF_FFFF;
  }

  lemma {:induction false} AndHigh(w: Word)
    ensures And(w, 0xFFFF_FFFC) == w - w % 4
  {
    if w >= 4 {
      ThirtyOnes();
      AndMask(w / 4, 30);
      assert w / 2 / 2 == w / 4;
      assert And(w / 2, 0x7FFF_FFFE) == 2 * And(w / 4, 0x3FFF_FFFF);
      assert And(w, 0xFFFF_FFFC) == 2 * And(w / 2, 0x7FFF_FFFE);
    } else if w >= 2 {
      assert w / 2 == 1 && And(1, 0x7FFF_FFFE) == 2 * And(0, 0x3FFF_FFFF);
    }
  }

  /** Bits below bit two or-ed to a multiple of four are simply added. */
  lemma {:induction false} OrLow(x: nat, b: nat)
    requires b < 4
    ensures Or(4 * x, b) == 4 * x + b
    ensures Or(b, 4 * x) == 4 * x + b
  {
    assert (4 * x) / 2 == 2 * x && (2 * x) / 2 == x && b / 2 / 2 == 0;
    assert Or(2 * x, b / 2) == 2 * x + b / 2;
    assert Or(b / 2, 2 * x) == 2 * x + b / 2;
  }

  lemma FourTimes(q: nat, b: nat)
    requires b < 4
    ensures (4 * q + b) / 4 == q && (4 * q + b) % 4 == b
  {}

  /** Writing the balance factor is read back as written and leaves the rank alone. */
  lemma {:induction false} BalanceIndependent(w: Word, b: int)
    requires -1 <= b <= 1
    ensures SetBalance(w, b) < UINT_RANGE
    ensures GetBalance(SetBalance(w, b)) == b
    ensures GetRank(SetBalance(w, b)) == GetRank(w)
  {
    AndHigh(w);
    OrLow(w / 4, b + 1);
    FourTimes(w / 4, b + 1);
    AndThree(4 * (w / 4) + (b + 1));
  }

  /** Writing a rank keeps its low 30 bits, which is `Wrap`, and leaves the balance factor alone. */
  lemma {:induction false} RankIndependent(w: Word, r: Word)
    ensures SetRank(w, r) < UINT_RANGE
    ensures GetRank(SetRank(w, r)) == Wrap(r)
    ensures GetBalance(SetRank(w, r)) == GetBalance(w)
  {
    AndThree(w);
    assert ShiftLeft2(r) == 4 * Wrap(r);
    OrLow(Wrap(r), w % 4);
    AndThree(SetRank(w, r));
  }

  lemma WrapMultiple(k: int)
    ensures Wrap(0x4000_0000 * k) == 0
  {}

  /** The balance factor, plus one, is in the low two bits, the rank in the others. */
  lemma {:induction false} WordLayout(w: Word)
    ensures GetBalance(w) == w % 4 - 1 && GetRank(w) == w / 4
  {
    AndThree(w);
  }

  /** Unsigned rank arithmetic, wrapped to 32 bits before it is stored, stores what `Wrap` stores. */
  lemma {:induction false} RankArithmetic(w: Word, expr: int)
    ensures GetRank(SetRank(w, UInt(expr))) == Wrap(expr)
  {
    RankIndependent(w, UInt(expr));
    var q, u := expr / UINT_RANGE, UInt(expr);
    WrapMultiple(4 * q);
    WrapAdd(0x4000_0000 * (4 * q), u);
    assert 0x4000_0000 * (4 * q) + u == expr;
    WrapAdd(u, 0);
  }

  /** The word after AVL_SET_RANK with an unsigned expression whose value, before it wraps round, is `expr`. */
  function StoreRank(w: Word, expr: int): (w': Word)
    ensures GetRank(w') == Wrap(expr) && GetBalance(w') == GetBalance(w)
  {
    RankIndependent(w, UInt(expr));
    RankArithmetic(w, expr);
    SetRank(w, UInt(expr))
  }

  /** The word after AVL_SET_BALANCE. */
  function StoreBalance(w: Word, b: int): (w': Word)
    requires -1 <= b <= 1
    ensures GetBalance(w') == b && GetRank(w') == GetRank(w)
  {
    BalanceIndependent(w, b);
    SetBalance(w, b)
  }
}
