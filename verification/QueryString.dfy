/**
Form-encoded queries: `name=value` elements joined by ampersands, with percent-encoding (section
2.1 of RFC 3986) and plus signs for spaces in the values.
*/
module QueryString {
  import opened CTypes

  const PERCENT: Byte := 37
  const PLUS: Byte := 43
  const SPACE: Byte := 32
  const HASH: Byte := 35
  const AMPERSAND: Byte := 38
  const EQUALS: Byte := 61

  // ---------------------------------------------------------------- percent-decoding

  /** `p` in front of a result, if there is one. */
  function Behind(p: Bytes, r: Option<Bytes>): Option<Bytes> {
    if r.None? then None else Some(p + r.value)
  }

  /** What an encoded text stands for.  A hash sign ends it; a bad escape or a NUL makes it invalid. */
  function Unescape(s: Bytes): Option<Bytes> {
    if s == [] || s[0] == HASH then Some([])
    else if s[0] == 0 then None
    else if s[0] == PLUS then Behind([SPACE], Unescape(s[1..]))
    else if s[0] != PERCENT then Behind([s[0]], Unescape(s[1..]))
    else if |s| < 3 || HexOf(s[1]) == -1 || HexOf(s[2]) == -1 then None
    else Behind([HexOf(s[1]) * 16 + HexOf(s[2])], Unescape(s[3..]))
  }

  lemma BehindMore(p: Bytes, b: Bytes, r: Option<Bytes>)
    ensures Behind(p, Behind(b, r)) == Behind(p + b, r)
  {
    if r.Some? { assert p + (b + r.value) == (p + b) + r.value; }
  }

  lemma BehindNothing(r: Option<Bytes>)
    ensures Behind([], r) == r
  {
    if r.Some? { assert [] + r.value == r.value; }
  }

  /** `url_unescape`: one byte is stored for each one, two or three read, then the terminator. */
  method UrlUnescape(src: Bytes) returns (decoded: array?<Byte>, ghost n: nat)
    ensures decoded == null <==> Unescape(src).None?
    ensures decoded != null ==>
      fresh(decoded) && n < decoded.Length == |src| + 1 && Some(decoded[..n]) == Unescape(src) && decoded[n] == 0
  {
    var buf := new Byte[|src| + 1];
    var i, dst := 0, 0;
    assert src[0..] == src;
    BehindNothing(Unescape(src));
    while i < |src|
      invariant dst <= i <= |src| && Unescape(src) == Behind(buf[..dst], Unescape(src[i..]))
    {
      var b, step := Decoded(src, i);
      if step == 0 {
        if b == HASH {
          break;
        }
        return null, 0;
      }
      BehindMore(buf[..dst], [b], Unescape(src[i + step..]));
      buf[dst] := b;
      assert buf[..dst + 1] == buf[..dst] + [b];
      dst := dst + 1;
      i := i + step;
    }
    buf[dst] := 0;
    assert buf[..dst] + [] == buf[..dst];
    return buf, dst;
  }

  /** One decoded byte and how many bytes spell it; `step` is 0 at a hash sign and for invalid text. */
  method Decoded(src: Bytes, i: nat) returns (b: Byte, step: nat)
    requires i < |src|
    ensures i + step <= |src|
    ensures step > 0 ==> Unescape(src[i..]) == Behind([b], Unescape(src[i + step..]))
    ensures step == 0 ==> Unescape(src[i..]) == if b == HASH then Some([]) else None
  {
    ghost var s := src[i..];
    assert s[0] == src[i];
    if src[i] == PERCENT {
      if i + 2 >= |src| || HexOf(src[i + 1]) == -1 || HexOf(src[i + 2]) == -1 {
        return 0, 0;
      }
      assert s[3..] == src[i + 3..] && s[1] == src[i + 1] && s[2] == src[i + 2];
      return HexOf(src[i + 1]) * 16 + HexOf(src[i + 2]), 3;
    }
    assert s[1..] == src[i + 1..];
    if src[i] == PLUS {
      return SPACE, 1;
    } else if src[i] == HASH {
      return HASH, 0;
    } else if src[i] == 0 {
      return 0, 0;
    }
    return src[i], 1;
  }

  // ---------------------------------------------------------------- percent-encoding

  predicate Unreserved(b: Byte) {
    48 <= b <= 57 || 65 <= b <= 90 || 97 <= b <= 122 || b == 45 || b == 46 || b == 95 || b == 126
  }

  function HexChar(d: nat): Byte
    requires d < 16
  {
    if d < 10 then 48 + d else 65 + d - 10
  }

  function EscapeByte(b: Byte): Bytes {
    if Unreserved(b) then [b] else if b == SPACE then [PLUS] else [PERCENT, HexChar(b / 16), HexChar(b % 16)]
  }

  /** The percent-encoding of a text. */
  function Escape(v: Bytes): Bytes {
    if v == [] then [] else EscapeByte(v[0]) + Escape(v[1..])
  }

  lemma UnescapeByte(b: Byte, rest: Bytes)
    ensures Unescape(EscapeByte(b) + rest) == Behind([b], Unescape(rest))
  {
    var s := EscapeByte(b) + rest;
    if Unreserved(b) || b == SPACE {
      assert s[1..] == rest;
    } else {
      assert s[3..] == rest;
      assert HexOf(s[1]) * 16 + HexOf(s[2]) == b;
    }
  }

  lemma {:induction false} UnescapeEscape(v: Bytes)
    ensures Unescape(Escape(v)) == Some(v)
  {
    if v != [] {
      UnescapeByte(v[0], Escape(v[1..]));
      UnescapeEscape(v[1..]);
      assert v == [v[0]] + v[1..];
    }
  }

  ghost predicate Free(s: Bytes, b: Byte) { forall i :: 0 <= i < |s| ==> s[i] != b }

  lemma {:induction false} EscapeFree(v: Bytes)
    ensures Free(Escape(v), AMPERSAND) && Free(Escape(v), EQUALS) && (v != [] ==> Escape(v) != [])
  {
    if v != [] { EscapeFree(v[1..]); }
  }

  // ---------------------------------------------------------------- elements

  /** The first `b` in `s`, or its length. */
  function FirstOf(s: Bytes, b: Byte): (k: nat)
    ensures k <= |s| && (k < |s| ==> s[k] == b)
    ensures forall i :: 0 <= i < k ==> s[i] != b
  {
    if s == [] || s[0] == b then 0 else FirstOf(s[1..], b) + 1
  }

  /** The last `b` in `s`, or -1. */
  function LastOf(s: Bytes, b: Byte): (k: int)
    ensures -1 <= k < |s|
    ensures k >= 0 ==> s[k] == b
    ensures forall i :: k < i < |s| ==> s[i] != b
  {
    if s == [] then -1
    else if s[|s| - 1] == b then |s| - 1
    else LastOf(s[..|s| - 1], b)
  }

  /** A name and a value, as C strings. */
  type Pair = (CString, CString)

  /** The name is everything before the last equals sign, taken as it is; the value behind it is decoded. */
  function Element(e: Bytes): seq<Pair> {
    var mid := LastOf(e, EQUALS);
    if mid <= 0 || mid == |e| - 1 then []
    else
      var v := Unescape(e[mid + 1..]);
      if v.None? then [] else [(AsCString(e[..mid]), AsCString(v.value))]
  }

  function Elements(q: Bytes): seq<Pair>
    decreases |q|
  {
    var k := FirstOf(q, AMPERSAND);
    if k == |q| then Element(q) else Element(q[..k]) + Elements(q[k + 1..])
  }

  /** What a query says; one that starts with a NUL says nothing. */
  function Pairs(q: Bytes): seq<Pair> { if q == [] || q[0] == 0 then [] else Elements(q) }

  // ---------------------------------------------------------------- round trip

  /** An element without a name or without a value is passed over. */
  predicate Told(p: Pair) { p.0 != [] && p.1 != [] }

  function Kept(ps: seq<Pair>): seq<Pair> {
    if ps == [] then [] else (if Told(ps[0]) then [ps[0]] else []) + Kept(ps[1..])
  }

  function PrintPair(p: Pair): Bytes { p.0 + [EQUALS] + Escape(p.1) }

  function Join(ps: seq<Pair>): Bytes {
    if ps == [] then []
    else if |ps| == 1 then PrintPair(ps[0])
    else PrintPair(ps[0]) + [AMPERSAND] + Join(ps[1..])
  }

  lemma {:induction false} LastOfMiddle(a: Bytes, b: Byte, c: Bytes)
    requires Free(c, b)
    ensures LastOf(a + [b] + c, b) == |a|
  {
    var s := a + [b] + c;
    if c != [] {
      assert s[..|s| - 1] == a + [b] + c[..|c| - 1];
      LastOfMiddle(a, b, c[..|c| - 1]);
    }
  }

  lemma {:induction false} FirstOfMiddle(a: Bytes, b: Byte, c: Bytes)
    requires Free(a, b)
    ensures FirstOf(a + [b] + c, b) == |a|
  {
    var s := a + [b] + c;
    if a != [] {
      assert s[1..] == a[1..] + [b] + c;
      FirstOfMiddle(a[1..], b, c);
    }
  }

  lemma {:induction false} FirstOfNone(a: Bytes, b: Byte)
    requires Free(a, b)
    ensures FirstOf(a, b) == |a|
  {
    if a != [] { FirstOfNone(a[1..], b); }
  }

  lemma {:induction false} PrintPairFree(p: Pair)
    requires Free(p.0, AMPERSAND)
    ensures Free(PrintPair(p), AMPERSAND) && PrintPair(p) != [] && PrintPair(p)[0] != 0
  {
    EscapeFree(p.1);
    assert PrintPair(p)[0] == if p.0 == [] then EQUALS else p.0[0];
  }

  lemma {:induction false} ElementPrint(p: Pair)
    ensures Element(PrintPair(p)) == Kept([p])
  {
    var e, v := PrintPair(p), Escape(p.1);
    EscapeFree(p.1);
    LastOfMiddle(p.0, EQUALS, v);
    assert e[|p.0| + 1..] == v && e[..|p.0|] == p.0;
    UnescapeEscape(p.1);
    WholeCString(p.0);
    WholeCString(p.1);
  }

  lemma ElementsFirst(q: Bytes, e: Bytes, rest: Bytes)
    requires q == e + [AMPERSAND] + rest && Free(e, AMPERSAND)
    ensures Elements(q) == Element(e) + Elements(rest)
  {
    FirstOfMiddle(e, AMPERSAND, rest);
    assert q[..|e|] == e && q[|e| + 1..] == rest;
  }

  /** No name in a list has an ampersand in it. */
  ghost predicate PlainNames(ps: seq<Pair>) { forall i :: 0 <= i < |ps| ==> Free(ps[i].0, AMPERSAND) }

  lemma PlainTail(ps: seq<Pair>, rest: seq<Pair>)
    requires PlainNames(ps) && ps != [] && rest == ps[1..]
    ensures PlainNames(rest)
  {
    assert forall i :: 0 <= i < |rest| ==> rest[i] == ps[i + 1];
  }

  lemma KeptFirst(ps: seq<Pair>)
    requires ps != []
    ensures Kept(ps) == Kept([ps[0]]) + Kept(ps[1..])
  {
    var one: seq<Pair> := [ps[0]];
    assert Kept(one[1..]) == [] && Kept(one) == (if Told(ps[0]) then one else []);
  }

  lemma {:induction false} JoinStarts(ps: seq<Pair>)
    requires ps != [] && PlainNames(ps)
    ensures Join(ps) != [] && Join(ps)[0] != 0
  {
    PrintPairFree(ps[0]);
  }

  lemma {:induction false} ElementsJoin(ps: seq<Pair>)
    requires ps != [] && PlainNames(ps)
    ensures Elements(Join(ps)) == Kept(ps)
  {
    var e := PrintPair(ps[0]);
    PrintPairFree(ps[0]);
    ElementPrint(ps[0]);
    KeptFirst(ps);
    if |ps| == 1 {
      FirstOfNone(e, AMPERSAND);
    } else {
      PlainTail(ps, ps[1..]);
      ElementsJoin(ps[1..]);
      ElementsFirst(Join(ps), e, Join(ps[1..]));
    }
  }

  /** The names a query gives have no ampersand in them. */
  lemma {:induction false} ElementsPlain(q: Bytes)
    ensures PlainNames(Elements(q))
    decreases |q|
  {
    var k := FirstOf(q, AMPERSAND);
    if k < |q| {
      ElementsPlain(q[k + 1..]);
    } else {
      assert q[..k] == q;
    }
  }

  lemma {:induction false} KeptAll(ps: seq<Pair>)
    ensures |Kept(ps)| <= |ps|
    ensures Kept(ps) == ps <==> forall i :: 0 <= i < |ps| ==> Told(ps[i])
  {
    if ps != [] {
      KeptAll(ps[1..]);
      assert forall i :: 0 <= i < |ps[1..]| ==> ps[1..][i] == ps[i + 1];
      assert ps == [ps[0]] + ps[1..];
    }
  }

  /**
  Parsing the percent-encoded join of a list of pairs gives back that list exactly when every name
  and value is non-empty and no name has an ampersand in it (names are not decoded).
  */
  lemma {:induction false} QueryRoundTrip(ps: seq<Pair>)
    ensures Pairs(Join(ps)) == ps <==> PlainNames(ps) && forall i :: 0 <= i < |ps| ==> Told(ps[i])
  {
    ElementsPlain(Join(ps));
    if ps != [] && PlainNames(ps) {
      JoinStarts(ps);
      ElementsJoin(ps);
      KeptAll(ps);
    }
  }

  // ---------------------------------------------------------------- names taken as they are

  lemma {:induction false} OnePair(name: CString, b: Byte)
    requires name != [] && Free(name, AMPERSAND) && Unreserved(b)
    ensures Pairs(name + [EQUALS] + [b]) == [(name, [b])]
  {
    var p: Pair := (name, [b]);
    var nothing: Bytes := [];
    assert Escape([b][1..]) == nothing && [b] + nothing == [b];
    assert PrintPair(p) == name + [EQUALS] + [b];
    PrintPairFree(p);
    FirstOfNone(PrintPair(p), AMPERSAND);
    ElementPrint(p);
    assert [p][1..] == [] && [p] + [] == [p];
  }

  /** `%61=b` gives the name `%61`, though `%61` stands for `a`. */
  lemma NameNotDecoded()
    ensures Pairs([PERCENT, 54, 49, EQUALS, 98]) == [([PERCENT, 54, 49], [98])]
    ensures Unescape([PERCENT, 54, 49]) == Some([97])
  {
    var name := [PERCENT, 54, 49];
    OnePair(name, 98);
    assert name + [EQUALS] + [98] == [PERCENT, 54, 49, EQUALS, 98];
    assert Unescape(name[3..]) == Some([]) && [97] + [] == [97];
  }

  /** `a=b=c` gives the name `a=b`. */
  lemma LastEqualsDivides()
    ensures Pairs([97, EQUALS, 98, EQUALS, 99]) == [([97, EQUALS, 98], [99])]
  {
    var name := [97, EQUALS, 98];
    OnePair(name, 99);
    assert name + [EQUALS] + [99] == [97, EQUALS, 98, EQUALS, 99];
  }

  // ---------------------------------------------------------------- in plain bytes

  function Prefixed(p: Byte, r: Option<Bytes>): Option<Bytes> { if r.None? then None else Some([p] + r.value) }

  /**
  Decoding byte by byte: a plus sign is a space, a percent sign and two hexadecimal digits are the
  byte they spell, a hash sign ends the text, a NUL or a bad escape spoils it; all else is itself.
  */
  lemma {:induction false} UnescapeMeans(b: Byte, rest: Bytes)
    ensures Unescape([]) == Some([])
    ensures b == 35 ==> Unescape([b] + rest) == Some([])
    ensures b == 0 ==> Unescape([b] + rest) == None
    ensures b == 43 ==> Unescape([b] + rest) == Prefixed(32, Unescape(rest))
    ensures b == 37 && |rest| < 2 ==> Unescape([b] + rest) == None
    ensures b == 37 && |rest| >= 2 ==>
      var high, low := HexOf(rest[0]), HexOf(rest[1]);
      Unescape([b] + rest) == if high < 0 || low < 0 then None else Prefixed(16 * high + low, Unescape(rest[2..]))
    ensures b !in [0, 35, 37, 43] ==> Unescape([b] + rest) == Prefixed(b, Unescape(rest))
  {
    var s := [b] + rest;
    assert s[1..] == rest;
    if |rest| >= 2 { assert s[3..] == rest[2..]; }
  }

  /** The first ampersand ends an element. */
  lemma {:induction false} AmpersandDivides(e: Bytes, rest: Bytes)
    requires 38 !in e
    ensures Elements(e + [38] + rest) == Element(e) + Elements(rest) && Elements(e) == Element(e)
  {
    assert Free(e, 38);
    ElementsFirst(e + [38] + rest, e, rest);
    FirstOfNone(e, 38);
  }

  /** The last equals sign divides an element that has a name and a value. */
  lemma {:induction false} EqualsDivides(name: Bytes, value: Bytes)
    requires name != [] && value != [] && 61 !in value
    ensures Element(name + [61] + value) ==
      if Unescape(value).None? then [] else [(AsCString(name), AsCString(Unescape(value).value))]
  {
    var e := name + [61] + value;
    assert Free(value, 61);
    LastOfMiddle(name, 61, value);
    assert e[|name| + 1..] == value && e[..|name|] == name;
  }

  /** An element without an equals sign, or without a name or a value, says nothing. */
  lemma {:induction false} SaysNothing(e: Bytes)
    requires 61 !in e || (e != [] && e[|e| - 1] == 61) || (e != [] && e[0] == 61 && 61 !in e[1..])
    ensures Element(e) == []
  {
    assert forall i :: 0 < i < |e| ==> e[i] == e[1..][i - 1];
  }
}
