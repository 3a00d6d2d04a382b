/** Bytes, C strings and optional pointers, as the other modules use them. */
module CTypes {
  type Byte = b: int | 0 <= b < 256
  type Bytes = seq<Byte>

  /** A pointer that may be NULL, and what it points to otherwise. */
  datatype Option<T> = None | Some(value: T)

  predicate NulFree(s: Bytes) { forall i :: 0 <= i < |s| ==> s[i] != 0 }

  /** What a NUL-terminated string holds before its terminator. */
  type CString = s: Bytes | NulFree(s)

  /** The value of a hexadecimal digit of either case, -1 for anything else. */
  function HexOf(c: Byte): (d: int)
    ensures -1 <= d < 16
  {
    if 48 <= c <= 57 then c - 48
    else if 65 <= c <= 70 then c - 65 + 10
    else if 97 <= c <= 102 then c - 97 + 10
    else -1
  }

  /** The lower-case hexadecimal digit of a value. */
  function HexDigit(d: nat): (c: Byte)
    requires d < 16
    ensures HexOf(c) == d
  {
    if d < 10 then 48 + d else 97 + d - 10
  }

  /** Hexadecimal digits, in the letters of either case, and nothing else. */
  lemma {:induction false} HexDigitsAre(c: Byte)
    ensures HexOf(c) >= 0 ==> "0123456789abcdef"[HexOf(c)] as int == c || "0123456789ABCDEF"[HexOf(c)] as int == c
    ensures HexOf(c) < 0 ==> forall d :: 0 <= d < 16 ==>
      "0123456789abcdef"[d] as int != c && "0123456789ABCDEF"[d] as int != c
  {
    if HexOf(c) < 0 {
      forall d | 0 <= d < 16
        ensures "0123456789abcdef"[d] as int != c && "0123456789ABCDEF"[d] as int != c
      {
        LettersInRange(d);
      }
    }
  }

  lemma LettersInRange(d: nat)
    requires d < 16
    ensures "0123456789abcdef"[d] as int == (if d < 10 then 48 + d else 87 + d)
    ensures "0123456789ABCDEF"[d] as int == (if d < 10 then 48 + d else 55 + d)
  {}

  /** The string at the start of a buffer: everything before the first NUL. */
  function AsCString(s: Bytes): (c: CString)
    ensures c <= s && (|c| < |s| ==> s[|c|] == 0)
  {
    if s == [] || s[0] == 0 then [] else [s[0]] + AsCString(s[1..])
  }

  lemma {:induction false} WholeCString(s: Bytes)
    ensures AsCString(s) == s <==> NulFree(s)
  {
    if NulFree(s) && s != [] {
      assert NulFree(s[1..]) by { assert forall i :: 0 <= i < |s[1..]| ==> s[1..][i] == s[i + 1]; }
      WholeCString(s[1..]);
    }
  }
}
