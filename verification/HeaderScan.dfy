/**
What the scan for the end of a chunk header makes of the extensions in it, byte by byte, and the
exact condition under which it finds the end.
*/
module HeaderScan {
  import opened CTypes
  import opened ChunkedFormat
  import opened Extensions

  /** Where the scan stands: in a quoted string (`quote` is 1 or 2), outside (0), or past a CRLF outside. */
  datatype Lex = Lex(quote: nat, cr: bool) | Done

  const START: Lex := Lex(0, false)

  function Step(l: Lex, b: Byte): Lex {
    if l.Done? then Done
    else if l.quote > 0 then Lex(if b == BACKSLASH then 2 else if b == QUOTE then l.quote - 1 else l.quote, false)
    else if b == QUOTE then Lex(1, false)
    else if b == LF && l.cr then Done
    else Lex(0, b == CR)
  }

  function Walk(l: Lex, t: Bytes): Lex
    decreases |t|
  {
    if t == [] then l else Walk(Step(l, t[0]), t[1..])
  }

  lemma {:induction false} WalkDone(t: Bytes)
    ensures Walk(Done, t) == Done
  {
    if t != [] { WalkDone(t[1..]); }
  }

  lemma {:induction false} WalkParts(l: Lex, a: Bytes, b: Bytes)
    ensures Walk(l, a + b) == Walk(Walk(l, a), b)
    decreases |a|
  {
    if a == [] {
      assert a + b == b;
    } else {
      assert (a + b)[1..] == a[1..] + b;
      WalkParts(Step(l, a[0]), a[1..], b);
    }
  }

  /** Outside quotes, with no CR just before: what the scan should come back to at the end of the extensions. */
  ghost predicate Outside(l: Lex) { l.Lex? && l.quote == 0 }

  /** The scan is not in a quoted string when it comes to the end of the extensions, nor has it stopped before. */
  ghost predicate Settled(text: Bytes) { Outside(Walk(START, text)) }

  // ---------------------------------------------------------------- the scan on a header

  lemma {:induction false} ScanHex(s: Bytes, i: nat, t: Bytes)
    requires Reads(s, i, t) && forall j :: 0 <= j < |t| ==> HexOf(t[j]) >= 0
    ensures Scan(s, i, 0, false, -1) == Scan(s, i + |t|, 0, false, -1)
    decreases |t|
  {
    if t != [] {
      ReadsFirst(s, i, t);
      ScanHex(s, i + 1, t[1..]);
    }
  }

  /** Once the extensions have begun, the scan takes the same steps as `Walk`. */
  lemma {:induction false} ScanWalk(s: Bytes, i: nat, t: Bytes, l: Lex, ext: int)
    requires Reads(s, i, t) && l.Lex? && 0 <= ext < i
    ensures var l' := Walk(l, t);
      if l'.Lex? then Scan(s, i, l.quote, l.cr, ext) == Scan(s, i + |t|, l'.quote, l'.cr, ext)
      else Scan(s, i, l.quote, l.cr, ext).Header? && Scan(s, i, l.quote, l.cr, ext).lf < i + |t|
    decreases |t|
  {
    if t != [] {
      ReadsFirst(s, i, t);
      var l1 := Step(l, t[0]);
      if l1.Lex? {
        ScanWalk(s, i + 1, t[1..], l1, ext);
      } else {
        WalkDone(t[1..]);
      }
    }
  }

  /** At the CRLF: the scan stops there exactly if it is outside quotes. */
  lemma {:induction false} ScanCrLf(s: Bytes, i: nat, l: Lex, ext: int)
    requires 0 < i && i + 1 < |s| && s[i] == CR && s[i + 1] == LF && l.Lex? && -1 <= ext < i
    ensures Scan(s, i, l.quote, l.cr, ext) == Header(if ext < 0 then i else ext, i + 1) <==> l.quote == 0
  {
    if l.quote > 0 {
      ScanBounds(s, i + 2, l.quote, false, ext);
    }
  }

  lemma HeaderLayout(hex: Bytes, p: Bytes, rest: Bytes, s: Bytes)
    requires s == hex + p + CRLF + rest
    ensures Reads(s, 0, hex) && Reads(s, |hex|, p) && |s| == |hex| + |p| + 2 + |rest|
    ensures s[|hex| + |p|] == CR && s[|hex| + |p| + 1] == LF
    ensures s[..|hex|] == hex && s[|hex|..|hex| + |p|] == p && s[|hex| + |p| + 2..] == rest
  {}

  /** The end of a header is found if and only if the scan has settled behind its extensions. */
  lemma {:induction false} HeaderEnds(hex: Bytes, p: Bytes, rest: Bytes, s: Bytes)
    requires IsHex(hex) && (p == [] || p[0] == SEMICOLON) && s == hex + p + CRLF + rest
    ensures FindHeader(s) == Header(|hex|, |hex| + |p| + 1) <==> Settled(p)
  {
    var i, end := |hex|, |hex| + |p|;
    HeaderLayout(hex, p, rest, s);
    ScanHex(s, 0, hex);
    if p == [] {
      ScanCrLf(s, i, START, -1);
    } else {
      ReadsFirst(s, i, p);
      assert FindHeader(s) == Scan(s, i + 1, 0, false, i) && Walk(START, p) == Walk(START, p[1..]);
      ScanWalk(s, i + 1, p[1..], START, i);
      if Walk(START, p).Lex? {
        ScanCrLf(s, end, Walk(START, p), i);
      }
    }
  }

  /** A header is taken off as it was put together if and only if its end is found. */
  lemma {:induction false} TakenExactly(hex: Bytes, p: Bytes, rest: Bytes, s: Bytes, n: nat)
    requires s == hex + p + CRLF + rest && ChunkLength(hex) == Some(n)
    ensures TakeHeader(s) == First(Some(n), p, rest) <==> FindHeader(s) == Header(|hex|, |hex| + |p| + 1)
  {
    HeaderLayout(hex, p, rest, s);
    ScanBounds(s, 0, 0, false, -1);
  }

  // ---------------------------------------------------------------- texts the scan passes over

  /** Bytes that mean nothing to the scan, inside a quoted string or out. */
  ghost predicate Dull(t: Bytes) {
    forall i :: 0 <= i < |t| ==> t[i] != QUOTE && t[i] != BACKSLASH && t[i] != CR && t[i] != LF
  }

  lemma {:induction false} WalkDull(l: Lex, t: Bytes)
    requires Dull(t) && l.Lex?
    ensures t == [] ==> Walk(l, t) == l
    ensures t != [] ==> Walk(l, t) == Lex(l.quote, false)
    decreases |t|
  {
    if t != [] {
      assert Dull(t[1..]) by { assert forall i :: 0 <= i < |t[1..]| ==> t[1..][i] == t[i + 1]; }
      WalkDull(Lex(l.quote, false), t[1..]);
    }
  }
}
