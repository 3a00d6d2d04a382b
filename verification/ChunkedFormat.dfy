/**
The chunked transfer coding of section 3.6.1 of RFC 2616, as a reference: what a stream of bytes
means, defined on whole streams and with no buffers in sight.
*/
module ChunkedFormat {
  import opened CTypes

  const CR: Byte := 13
  const LF: Byte := 10
  const QUOTE: Byte := 34
  const SEMICOLON: Byte := 59
  const EQUALS: Byte := 61
  const BACKSLASH: Byte := 92

  const CRLF: Bytes := [13, 10]

  // ---------------------------------------------------------------- chunk headers

  /** A chunk header: the chunk length is spelled before `textEnd`; the header's LF is at `lf`. */
  datatype Header = NoHeader | Header(textEnd: nat, lf: nat)

  /**
  Looks for the end of a header from position `i` on.  `quote` is 1 inside a quoted string, 2 there
  after a backslash, 0 outside; `cr` says that the byte before was a CR outside quotes; `ext` is
  where the extensions start, or -1.  A CRLF inside a quoted string does not end the header.
  */
  function Scan(s: Bytes, i: nat, quote: nat, cr: bool, ext: int): Header
    requires i <= |s| && ext < i && (cr ==> i > 0)
    decreases |s| - i
  {
    if i == |s| then NoHeader
    else if quote > 0 then
      Scan(s, i + 1, if s[i] == BACKSLASH then 2 else if s[i] == QUOTE then quote - 1 else quote, false, ext)
    else if s[i] == QUOTE then Scan(s, i + 1, 1, false, ext)
    else if s[i] == SEMICOLON && ext < 0 then Scan(s, i + 1, 0, false, i)
    else if s[i] == CR then Scan(s, i + 1, 0, true, ext)
    else if s[i] == LF && cr then Header(if ext < 0 then i - 1 else ext, i)
    else Scan(s, i + 1, 0, false, ext)
  }

  function FindHeader(s: Bytes): Header { Scan(s, 0, 0, false, -1) }

  lemma {:induction false} ScanBounds(s: Bytes, i: nat, quote: nat, cr: bool, ext: int)
    requires i <= |s| && ext < i && (cr ==> i > 0)
    ensures var h := Scan(s, i, quote, cr, ext);
      h.Header? ==> h.textEnd < h.lf < |s| && i <= h.lf && (ext >= 0 ==> h.textEnd == ext)
    decreases |s| - i
  {
    if i < |s| {
      if quote > 0 {
        ScanBounds(s, i + 1, if s[i] == BACKSLASH then 2 else if s[i] == QUOTE then quote - 1 else quote, false, ext);
      } else if s[i] == QUOTE {
        ScanBounds(s, i + 1, 1, false, ext);
      } else if s[i] == SEMICOLON && ext < 0 {
        ScanBounds(s, i + 1, 0, false, i);
      } else if s[i] == CR {
        ScanBounds(s, i + 1, 0, true, ext);
      } else if !(s[i] == LF && cr) {
        ScanBounds(s, i + 1, 0, false, ext);
      }
    }
  }

  /** A header once found is there to stay, whatever follows. */
  lemma {:induction false} ScanStable(s: Bytes, u: Bytes, i: nat, quote: nat, cr: bool, ext: int)
    requires i <= |s| && ext < i && (cr ==> i > 0)
    ensures Scan(s, i, quote, cr, ext).Header? ==> Scan(s + u, i, quote, cr, ext) == Scan(s, i, quote, cr, ext)
    decreases |s| - i
  {
    if i < |s| {
      assert (s + u)[i] == s[i];
      if quote > 0 {
        var q := if s[i] == BACKSLASH then 2 else if s[i] == QUOTE then quote - 1 else quote;
        ScanStable(s, u, i + 1, q, false, ext);
      } else if s[i] == QUOTE {
        ScanStable(s, u, i + 1, 1, false, ext);
      } else if s[i] == SEMICOLON && ext < 0 {
        ScanStable(s, u, i + 1, 0, false, i);
      } else if s[i] == CR {
        ScanStable(s, u, i + 1, 0, true, ext);
      } else if !(s[i] == LF && cr) {
        ScanStable(s, u, i + 1, 0, false, ext);
      }
    }
  }

  // ---------------------------------------------------------------- hexadecimal lengths

  predicate IsHex(s: Bytes) {
    s != [] && forall i :: 0 <= i < |s| ==> HexOf(s[i]) >= 0
  }

  /** The number a run of hexadecimal digits denotes. */
  function HexValue(s: Bytes): nat
    requires forall i :: 0 <= i < |s| ==> HexOf(s[i]) >= 0
  {
    if s == [] then 0 else 16 * HexValue(s[..|s| - 1]) + HexOf(s[|s| - 1])
  }

  /** The chunk length, if it is well formed and leaves room for the CRLF in 64 bits. */
  function ChunkLength(text: Bytes): Option<nat> {
    if IsHex(text) && HexValue(text) + 2 < 0x1_0000_0000_0000_0000 then Some(HexValue(text)) else None
  }

  // ---------------------------------------------------------------- streams

  function Take(s: Bytes, n: nat): Bytes { if n <= |s| then s[..n] else s }
  function Drop(s: Bytes, n: nat): Bytes { if n <= |s| then s[n..] else [] }

  /** A stream's first header taken off: the chunk's length (None if malformed), extensions, and what follows. */
  datatype FirstChunk = Pending | First(length: Option<nat>, ext: Bytes, rest: Bytes)

  function TakeHeader(s: Bytes): (f: FirstChunk)
    ensures f.First? ==> |f.rest| < |s|
  {
    var h := FindHeader(s);
    ScanBounds(s, 0, 0, false, -1);
    if h.NoHeader? then Pending
    else First(ChunkLength(s[..h.textEnd]), s[h.textEnd..h.lf - 1], s[h.lf + 1..])
  }

  /**
  What a stream says, as far as it goes: the bytes it carries; the extensions of each header; once
  the header of the last chunk (the one of length zero) is complete, how many bytes follow that
  header, -1 before; and how many bytes the last header has announced that are not there yet, or, if
  negative, how many bytes of an incomplete header stand at the end.
  */
  datatype Message = Message(data: Bytes, exts: seq<Bytes>, tail: int, over: int)

  function Prepend(d: Bytes, e: seq<Bytes>, m: Message): Message { m.(data := d + m.data, exts := e + m.exts) }

  lemma PrependTwice(c: Bytes, e: seq<Bytes>, d: Bytes, f: seq<Bytes>, m: Message)
    ensures Prepend(c, e, Prepend(d, f, m)) == Prepend(c + d, e + f, m)
  {
    assert c + (d + m.data) == (c + d) + m.data;
    assert e + (f + m.exts) == (e + f) + m.exts;
  }

  lemma PrependNothing(m: Message)
    ensures Prepend([], [], m) == m
  {}

  ghost function Decode(s: Bytes): Message
    decreases |s|
  {
    var f := TakeHeader(s);
    if f.Pending? || f.length.None? then Message([], [], -1, -|s|)
    else if f.length.value == 0 then Message([], [f.ext], |f.rest|, 0)
    else
      var n := f.length.value;
      var past := if |f.rest| < n + 2 then Message([], [], -1, n + 2 - |f.rest|) else Decode(f.rest[n + 2..]);
      Prepend(Take(f.rest, n), [f.ext], past)
  }

  /** What a stream says behind its first `k` bytes, of which some may not be there yet. */
  ghost function Past(s: Bytes, k: nat): Message {
    if |s| < k then Message([], [], -1, k - |s|) else Decode(s[k..])
  }

  /**
  The stream is the beginning of a well-formed one: every header begins with a hexadecimal digit,
  every complete one spells a length, every chunk ends with CRLF.  What follows the header of the
  last chunk, be it trailers or the final CRLF, does not start with a bare LF.
  */
  ghost predicate WellFormed(s: Bytes)
    decreases |s|
  {
    var f := TakeHeader(s);
    && (s == [] || HexOf(s[0]) >= 0)
    && (f.First? ==>
          && f.length.Some?
          && (f.length.value == 0 ==> NotLF(f.rest))
          && (f.length.value > 0 ==>
                EndsChunk(Drop(f.rest, f.length.value)) && WellFormed(Drop(f.rest, f.length.value + 2))))
  }

  predicate EndsChunk(s: Bytes) {
    (|s| > 0 ==> s[0] == CR) && (|s| > 1 ==> s[1] == LF)
  }

  predicate NotLF(s: Bytes) { s == [] || s[0] != LF }

  /** `n` bytes of chunk body, the CRLF that ends the chunk, then more chunks. */
  ghost function Inside(n: nat, s: Bytes): Message { Prepend(Take(s, n), [], Past(s, n + 2)) }

  ghost predicate InsideOk(n: nat, s: Bytes) {
    EndsChunk(Drop(s, n)) && WellFormed(Drop(s, n + 2))
  }

  lemma {:induction false} InsideStep(n: nat, b: Bytes, u: Bytes)
    requires |b| <= n
    ensures Inside(n, b + u) == Prepend(b, [], Inside(n - |b|, u))
  {
    DropAfter(n, b, u);
    PastAfter(n + 2, b, u);
    PrependTwice(b, [], Take(u, n - |b|), [], Past(u, n - |b| + 2));
  }

  lemma {:induction false} InsideStepOk(n: nat, b: Bytes, u: Bytes)
    requires |b| <= n
    ensures InsideOk(n, b + u) <==> InsideOk(n - |b|, u)
  {
    DropAfter(n, b, u);
    DropAfter(n + 2, b, u);
  }

  lemma PastAfter(k: nat, b: Bytes, u: Bytes)
    requires |b| <= k
    ensures Past(b + u, k) == Past(u, k - |b|)
  {
    if |b + u| >= k { assert (b + u)[k..] == u[k - |b|..]; }
  }

  lemma DropAfter(n: nat, b: Bytes, u: Bytes)
    requires |b| <= n
    ensures Drop(b + u, n) == Drop(u, n - |b|) && Take(b + u, n) == b + Take(u, n - |b|)
  {}

  /** A header that is all there is taken off the same way whatever follows. */
  lemma {:induction false} TakeHeaderStable(r: Bytes, u: Bytes)
    requires TakeHeader(r).First?
    ensures TakeHeader(r + u) == First(TakeHeader(r).length, TakeHeader(r).ext, TakeHeader(r).rest + u)
  {
    var h := FindHeader(r);
    ScanBounds(r, 0, 0, false, -1);
    ScanStable(r, u, 0, 0, false, -1);
    assert (r + u)[..h.textEnd] == r[..h.textEnd];
    assert (r + u)[h.textEnd..h.lf - 1] == r[h.textEnd..h.lf - 1];
    assert (r + u)[h.lf + 1..] == r[h.lf + 1..] + u;
  }

  /** What is left to say behind a header. */
  ghost function Behind(n: nat, rest: Bytes): Message {
    if n == 0 then Message([], [], |rest|, 0) else Inside(n, rest)
  }

  /** Decoding from a header that is all there. */
  lemma {:induction false} DecodeHeader(r: Bytes, u: Bytes, n: nat, ext: Bytes, rest: Bytes)
    requires TakeHeader(r) == First(Some(n), ext, rest)
    ensures Decode(r + u) == Prepend([], [ext], Behind(n, rest + u))
    ensures WellFormed(r + u) ==> if n == 0 then NotLF(rest + u) else InsideOk(n, rest + u)
  {
    TakeHeaderStable(r, u);
    DecodeFirst(r + u, n, ext, rest + u);
    if WellFormed(r + u) {
      WellFormedFirst(r + u, n, ext, rest + u);
    }
  }

  lemma {:induction false} DecodeFirst(s: Bytes, n: nat, ext: Bytes, rest: Bytes)
    requires TakeHeader(s) == First(Some(n), ext, rest)
    ensures Decode(s) == Prepend([], [ext], Behind(n, rest))
  {
    if n > 0 {
      PrependTwice([], [ext], Take(rest, n), [], Past(rest, n + 2));
      assert [ext] + [] == [ext];
    }
  }

  lemma {:induction false} WellFormedFirst(s: Bytes, n: nat, ext: Bytes, rest: Bytes)
    requires TakeHeader(s) == First(Some(n), ext, rest) && WellFormed(s)
    ensures if n == 0 then NotLF(rest) else InsideOk(n, rest)
  {}

  /** A whole chunk in front of a well-formed stream. */
  lemma {:induction false} WholeChunk(s: Bytes, ext: Bytes, rest: Bytes, data: Bytes, more: Bytes)
    requires s != [] && HexOf(s[0]) >= 0 && TakeHeader(s) == First(Some(|data|), ext, rest)
    requires data != [] && rest == data + (CRLF + more) && WellFormed(more)
    ensures WellFormed(s) && Decode(s) == Prepend(data, [ext], Decode(more))
  {
    var n := |data|;
    assert Drop(rest, n) == CRLF + more && Drop(rest, n + 2) == rest[n + 2..] == more && Take(rest, n) == data;
  }

  /** The last chunk, with what follows its header. */
  lemma {:induction false} LastChunk(s: Bytes, ext: Bytes, rest: Bytes)
    requires s != [] && HexOf(s[0]) >= 0 && TakeHeader(s) == First(Some(0), ext, rest) && NotLF(rest)
    ensures WellFormed(s) && Decode(s) == Message([], [ext], |rest|, 0)
  {}
}
