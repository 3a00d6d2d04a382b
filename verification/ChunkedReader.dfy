/**
The incremental decoder: a state machine over a raw buffer, a decoded buffer and two counters, fed
by a callback that may return any short count.  Whatever the fragmentation, what it has delivered
and what it still holds always add up to what the reference says about the bytes it has fetched.
*/
module ChunkedReader {
  import opened CTypes
  import opened ChunkedFormat
  import Extensions

  /** A heap buffer with a read offset; `NoBuffer` is NULL. */
  datatype Buffer = NoBuffer | Buffer(data: Bytes, offset: nat) {
    predicate Valid() { Buffer? ==> offset <= |data| }

    function Rest(): Bytes
      requires Valid()
    {
      if NoBuffer? then [] else data[offset..]
    }
  }

  /** What a read callback, asked for at most `max` bytes, may answer: bytes, nothing (0) or failure (-1). */
  datatype Reply = Refused(ret: int) | Got(bytes: Bytes) {
    predicate Legal(max: nat) {
      if Got? then 1 <= |bytes| <= max else ret == 0 || ret == -1
    }
  }

  datatype Callback = NoCallback | Callback(read: nat -> Reply)

  /** What the callback brings when it is asked for at most `max` bytes. */
  function Given(cb: Callback, max: nat): Bytes {
    if cb.Callback? && cb.read(max).Got? then cb.read(max).bytes else []
  }

  ghost predicate LegalCallback(cb: Callback) {
    cb.Callback? ==> forall max: nat :: cb.read(max).Legal(max)
  }

  // ---------------------------------------------------------------- what a state still has to say

  /**
  What remains to be said when `till` bytes are left to the next header (2 of them the CRLF that
  ends the chunk), `eof` is the end-of-stream counter and `x` is the input not yet parsed.
  */
  ghost function Remaining(till: nat, eof: int, x: Bytes): Message
    requires till != 1
  {
    if eof != -1 then Message([], [], |x| + 2 - till, 0)
    else if till == 0 then Decode(x)
    else Inside(till - 2, x)
  }

  ghost predicate InputOk(till: nat, eof: int, x: Bytes)
    requires till != 1
  {
    if eof != -1 then till == 2 ==> NotLF(x)
    else if till == 0 then WellFormed(x)
    else InsideOk(till - 2, x)
  }

  /** A step that turns out bytes and extensions and loses nothing, whatever well-formed input follows. */
  ghost predicate Refines(till: nat, eof: int, x: Bytes, d: Bytes, e: seq<Bytes>, till': nat, eof': int, x': Bytes)
    requires till != 1 && till' != 1
  {
    InputOk(till, eof, x) ==>
      && InputOk(till', eof', x')
      && Remaining(till, eof, x) == Prepend(d, e, Remaining(till', eof', x'))
  }

  /** Body bytes handed straight to the caller. */
  lemma {:induction false} DirectStep(till: nat, eof: int, b: Bytes, u: Bytes)
    requires till > 2 && |b| <= till - 2 && eof == -1
    ensures Refines(till, eof, b + u, b, [], till - |b|, eof, u)
  {
    InsideStep(till - 2, b, u);
    InsideStepOk(till - 2, b, u);
  }

  /** The CRLF that ends a chunk, skipped. */
  lemma {:induction false} SkipStep(till: nat, eof: int, r: Bytes, u: Bytes)
    requires (till == 0 || till == 2) && |r| >= till
    ensures Refines(till, eof, r + u, [], [], 0, eof, r[till..] + u)
  {
    if till == 2 {
      assert Drop(r + u, 2) == (r + u)[2..] == r[2..] + u;
      PrependNothing(Decode(r[2..] + u));
    }
    assert r[0..] == r;
    PrependNothing(Remaining(0, eof, r[till..] + u));
  }

  /** The end-of-stream counter after a header announcing `n` bytes. */
  function EofAfter(n: nat): int { if n == 0 then 2 else -1 }

  /** A complete header, taken off. */
  lemma {:induction false} HeaderStep(r: Bytes, u: Bytes, n: nat, ext: Bytes, rest: Bytes)
    requires TakeHeader(r) == First(Some(n), ext, rest)
    ensures Refines(0, -1, r + u, [], [ext], n + 2, EofAfter(n), rest + u)
  {
    DecodeHeader(r, u, n, ext, rest);
    assert Remaining(n + 2, EofAfter(n), rest + u) == Behind(n, rest + u);
  }

  lemma {:induction false} RefinesTrans(till: nat, eof: int, x: Bytes, d: Bytes, e: seq<Bytes>,
                                        till1: nat, eof1: int, x1: Bytes, d1: Bytes, e1: seq<Bytes>,
                                        till2: nat, eof2: int, x2: Bytes)
    requires till != 1 && till1 != 1 && till2 != 1
    requires Refines(till, eof, x, d, e, till1, eof1, x1) && Refines(till1, eof1, x1, d1, e1, till2, eof2, x2)
    ensures Refines(till, eof, x, d + d1, e + e1, till2, eof2, x2)
  {
    PrependTwice(d, e, d1, e1, Remaining(till2, eof2, x2));
  }

  /** A complete header with `b` and `c` behind it: body bytes `b` move out. */
  lemma {:induction false} BodyStep(r: Bytes, u: Bytes, n: nat, ext: Bytes, b: Bytes, c: Bytes, rest: Bytes)
    requires TakeHeader(r) == First(Some(n), ext, rest) && rest == b + c && |b| <= n
    ensures Refines(0, -1, r + u, b, [ext], n + 2 - |b|, EofAfter(n), c + u)
  {
    HeaderStep(r, u, n, ext, rest);
    assert rest + u == b + (c + u);
    if n > 0 {
      BodyTrans(r + u, n, ext, b, c + u);
    } else {
      assert b == [] && rest == c;
    }
  }

  lemma {:induction false} BodyTrans(x: Bytes, n: nat, ext: Bytes, b: Bytes, x2: Bytes)
    requires n > 0 && |b| <= n && Refines(0, -1, x, [], [ext], n + 2, -1, b + x2)
    ensures Refines(0, -1, x, b, [ext], n + 2 - |b|, -1, x2)
  {
    DirectStep(n + 2, -1, b, x2);
    RefinesTrans(0, -1, x, [], [ext], n + 2, -1, b + x2, b, [], n + 2 - |b|, -1, x2);
    assert [] + b == b && [ext] + [] == [ext];
  }

  /** Input that starts with a bare LF where a header or the end of a chunk is due is not well formed. */
  lemma {:induction false} NeverLF(till: nat, eof: int, x: Bytes)
    requires (till == 0 || till == 2) && x != [] && x[0] == LF && (eof != -1 ==> till == 2)
    ensures !InputOk(till, eof, x)
  {
    if eof == -1 && till == 2 {
      assert Drop(x, 0) == x;
    }
  }

  /** The scan for the end of a header, with the offsets it finds in the whole buffer; -1 is "none". */
  method ScanHeader(data: Bytes, offset: nat) returns (ext: int, cr: int, lf: int)
    requires offset < |data|
    ensures lf == -1 ==> FindHeader(data[offset..]) == NoHeader
    ensures lf != -1 ==> offset <= lf < |data| && cr == lf - 1
    ensures lf != -1 && cr == -1 <==> offset == 0 && data[0] == LF
    ensures lf != -1 && cr != -1 ==>
      && offset <= cr && (ext == -1 || offset <= ext < cr)
      && data[cr] == CR && data[lf] == LF
      && FindHeader(data[offset..]) == Header((if ext == -1 then cr else ext) - offset, lf - offset)
  {
    ghost var r := data[offset..];
    var inQuote := 0;
    ext, cr, lf := -1, -1, -1;
    var i := offset;
    while i < |data|
      invariant offset <= i <= |data| && 0 <= inQuote <= 2 && cr < i
      invariant ext == -1 || (offset <= ext < i && data[ext] == SEMICOLON)
      invariant cr == -1 || (offset <= cr && data[cr] == CR)
      invariant i == offset ==> inQuote == 0
      invariant i > offset && offset == 0 ==> data[0] != LF
      invariant FindHeader(r) ==
        Scan(r, i - offset, inQuote, i > offset && cr == i - 1, if ext == -1 then -1 else ext - offset)
    {
      assert data[i] == r[i - offset];
      if inQuote > 0 {
        if data[i] == BACKSLASH {
          inQuote := 2;
        } else if data[i] == QUOTE {
          inQuote := inQuote - 1;
        }
      } else if data[i] == QUOTE {
        inQuote := 1;
      } else if data[i] == SEMICOLON && ext == -1 {
        ext := i;
      } else if data[i] == CR {
        cr := i;
      } else if data[i] == LF && cr == i - 1 {
        lf := i;
        if cr != -1 {
          ScanBounds(r, i - offset, inQuote, true, if ext == -1 then -1 else ext - offset);
        }
        return;
      }
      i := i + 1;
    }
  }

  /** A malformed length is not part of a well-formed stream. */
  lemma {:induction false} NeverMalformed(r: Bytes, u: Bytes)
    requires TakeHeader(r).First? && TakeHeader(r).length.None?
    ensures !WellFormed(r + u)
  {
    TakeHeaderStable(r, u);
  }

  /** Marks what may still come: statements about every future are applied only where this is said. */
  ghost predicate Future(u: Bytes) { true }

  /** Whatever follows, the step from one state to the other turns out `d` and `e` and loses nothing. */
  ghost predicate Advances(till: nat, eof: int, x: Bytes, d: Bytes, e: seq<Bytes>, till': nat, eof': int, x': Bytes)
    requires till != 1 && till' != 1
  {
    forall u {:trigger Future(u)} :: Refines(till, eof, x + u, d, e, till', eof', x' + u)
  }

  lemma {:induction false} AdvancesTrans(till: nat, eof: int, x: Bytes, d: Bytes, e: seq<Bytes>,
                                         till1: nat, eof1: int, x1: Bytes, d1: Bytes, e1: seq<Bytes>,
                                         till2: nat, eof2: int, x2: Bytes)
    requires till != 1 && till1 != 1 && till2 != 1
    requires Advances(till, eof, x, d, e, till1, eof1, x1) && Advances(till1, eof1, x1, d1, e1, till2, eof2, x2)
    ensures Advances(till, eof, x, d + d1, e + e1, till2, eof2, x2)
  {
    forall u ensures Refines(till, eof, x + u, d + d1, e + e1, till2, eof2, x2 + u) {
      assert Future(u);
      RefinesTrans(till, eof, x + u, d, e, till1, eof1, x1 + u, d1, e1, till2, eof2, x2 + u);
    }
  }

  /** Input that is in order before a step is in order after it. */
  lemma {:induction false} SkippedOk(till: nat, eof: int, x: Bytes, till': nat, eof': int, x': Bytes)
    requires till != 1 && till' != 1 && Advances(till, eof, x, [], [], till', eof', x')
    ensures InputOk(till, eof, x) ==> InputOk(till', eof', x')
  {
    var none: Bytes := [];
    assert Future(none) && x + none == x && x' + none == x';
  }

  /** A step that turns out nothing, and then another. */
  lemma {:induction false} SkippedFirst(till: nat, eof: int, x: Bytes, till1: nat, eof1: int, x1: Bytes,
                                        d: Bytes, e: seq<Bytes>, till2: nat, eof2: int, x2: Bytes)
    requires till != 1 && till1 != 1 && till2 != 1
    requires Advances(till, eof, x, [], [], till1, eof1, x1) && Advances(till1, eof1, x1, d, e, till2, eof2, x2)
    ensures Advances(till, eof, x, d, e, till2, eof2, x2)
    ensures InputOk(till, eof, x) ==> InputOk(till1, eof1, x1)
  {
    AdvancesTrans(till, eof, x, [], [], till1, eof1, x1, d, e, till2, eof2, x2);
    SkippedOk(till, eof, x, till1, eof1, x1);
    assert [] + d == d && [] + e == e;
  }

  lemma {:induction false} Stays(till: nat, eof: int, x: Bytes)
    requires till != 1
    ensures Advances(till, eof, x, [], [], till, eof, x)
  {
    forall u ensures Refines(till, eof, x + u, [], [], till, eof, x + u) {
      PrependNothing(Remaining(till, eof, x + u));
    }
  }

  /**
  The reader's state apart from where its buffers happen to start: what they hold, the counters, and
  of every header read so far its extensions and what stood behind it in the buffer at that time.
  */
  datatype View = View(raw: Bytes, decoded: Bytes, eof: int, till: nat, headers: seq<Bytes>, rests: seq<Bytes>)

  /** A reader that has not read anything. */
  const START_VIEW := View([], [], -1, 0, [], [])

  /** What is left of the chunk before is skipped once it is all there; with more behind it, the end is noticed. */
  function Skipped(v: View): View {
    if |v.raw| == v.till then v.(raw := [], decoded := [], till := 0)
    else if |v.raw| > v.till then
      v.(raw := v.raw[v.till..], decoded := [], eof := if v.eof == -1 then -1 else 0, till := 0)
    else v
  }

  /** A chunk of `n` bytes has been announced, and `rest` stands behind its header. */
  function AfterBody(rest: Bytes, n: nat, headers: seq<Bytes>, rests: seq<Bytes>): View {
    View(Drop(rest, if |rest| < n + 2 then n else n + 2), Take(rest, n),
         if n > 0 then -1 else if |rest| < 2 then 2 else 0,
         if |rest| <= n then n + 2 - |rest| else if |rest| == n + 1 then 2 else 0,
         headers, rests)
  }

  /** A complete header is taken off, with what there is of its chunk. */
  function Parsed(v: View): View {
    var f := TakeHeader(v.raw);
    if v.till == 0 && v.eof == -1 && f.First? && f.length.Some? then
      AfterBody(f.rest, f.length.value, v.headers + [f.ext], v.rests + [f.rest])
    else v
  }

  /** The reference for one step: what `got`, the bytes that the callback brought, make of an empty decoded buffer. */
  function Stepped(v: View, got: Bytes): View {
    if got == [] then v
    else if v.till > 2 then v.(decoded := got, till := if |got| <= v.till then v.till - |got| else 0)
    else Parsed(Skipped(v.(raw := v.raw + got, decoded := [])))
  }

  /** The reference for a read, with all that is decoded by it still in the decoded buffer. */
  function ReadStep(v: View, got: Bytes): View {
    var s := Stepped(v.(decoded := []), got);
    s.(decoded := v.decoded + s.decoded)
  }

  /** The step from `v` to `v'` that handed out `out` is the reference's. */
  ghost predicate Exact(v: View, got: Bytes, out: Bytes, v': View) {
    v'.(decoded := out + v'.decoded) == Stepped(v, got)
  }

  lemma HeaderExact(v: View, got: Bytes, v': View)
    requires v.till <= 2 && v.decoded == []
    requires v' == if got == [] then v else Parsed(Skipped(v.(raw := v.raw + got)))
    ensures Exact(v, got, [], v')
  {
    assert [] + v'.decoded == v'.decoded;
  }

  lemma DrainExact(v: View, got: Bytes, out: Bytes, v1: View, more: Bytes, v2: View)
    requires Exact(v, got, out, v1) && v2 == v1.(decoded := v2.decoded) && v1.decoded == more + v2.decoded
    ensures Exact(v, got, out + more, v2)
  {
    assert out + (more + v2.decoded) == (out + more) + v2.decoded;
  }

  lemma ReadExact(v: View, got: Bytes, more: Bytes, v': View)
    requires Exact(v.(decoded := []), got, more, v')
    ensures v'.(decoded := (v.decoded + more) + v'.decoded) == ReadStep(v, got)
  {
    assert (v.decoded + more) + v'.decoded == v.decoded + (more + v'.decoded);
  }

  /** How many bytes a read asks for, in plain terms. */
  lemma AsksPlainly(s: State, len: nat, cb: Callback)
    requires s.Shape() && len > |s.decoded.Rest()| && LegalCallback(cb)
    ensures var room := len - |s.decoded.Rest()|;
      var asked := if s.till > 2 then (if room < s.till - 2 then room else s.till - 2)
                   else if s.eof == -1 then 1024 else s.eof;
      && Fetch(s, len, cb) == Given(cb, asked) && |Given(cb, asked)| <= asked
      && !(s.till > 2 && s.Rejects(Given(cb, asked)))
  {}

  /** In the middle of a chunk body all that is fetched is handed out at once. */
  lemma DirectRead(v: View, got: Bytes, len: nat, out: Bytes, held: Bytes, v': View)
    requires v.till > 2 && |v.decoded| + |got| <= len && (|out| == len || held == [])
    requires v'.(decoded := out + held) == ReadStep(v, got)
    ensures out == v.decoded + got && (|got| <= v.till ==> v'.till == v.till - |got|)
  {
    assert |out + held| == |v.decoded + got|;
    if got == [] { assert v.decoded + [] == v.decoded; }
    assert held == [] && out + held == out;
  }

  lemma NothingFetched(v: View, out: Bytes, v': View)
    requires v' == v.(decoded := v'.decoded) && out + v'.decoded == v.decoded
    ensures v'.(decoded := out + v'.decoded) == ReadStep(v, [])
  {
    assert v.decoded + [] == v.decoded;
  }

  /** What a read with room for `len` fetches: nothing if enough is decoded already. */
  function Fetch(s: State, len: nat, cb: Callback): Bytes
    requires s.decoded.Valid() && s.eof >= -1
  {
    if len <= |s.decoded.Rest()| then [] else Given(cb, s.Asks(len - |s.decoded.Rest()|))
  }

  /** How many bytes stood behind the last header when it was parsed. */
  function LastRest(rests: seq<Bytes>): nat { if rests == [] then 0 else |rests[|rests| - 1]| }

  /**
  From `offset` on stands a header with a malformed length; or the buffer itself starts with an LF,
  which the scan takes for the end of a header with its CR in front of the buffer.
  */
  ghost predicate Unreadable(data: Bytes, offset: nat)
    requires offset < |data|
  {
    || (offset == 0 && data[0] == LF)
    || (TakeHeader(data[offset..]).First? && TakeHeader(data[offset..]).length.None?)
  }

  /** The callback is missing or reports a failure. */
  ghost predicate Fails(cb: Callback, max: nat) { cb.NoCallback? || cb.read(max) == Refused(-1) }

  /** The read half of the encoding object: both buffers and both counters. */
  datatype State = State(raw: Buffer, decoded: Buffer, eof: int, till: nat) {
    ghost predicate Shape() {
      && raw.Valid() && decoded.Valid() && (raw.Buffer? ==> raw.Rest() != [])
      && till != 1 && (till > 2 ==> raw == NoBuffer && eof == -1)
      && (eof == -1 || eof == 2 || (eof == 0 && till == 0))
      && (till == 2 ==> |raw.Rest()| <= 1)
      && (eof == 2 ==> till == 2 || (till == 0 && raw == NoBuffer))
      && (eof != -1 ==> decoded.Rest() == [])
    }

    function AsView(headers: seq<Bytes>, rests: seq<Bytes>): View
      requires raw.Valid() && decoded.Valid()
    {
      View(raw.Rest(), decoded.Rest(), eof, till, headers, rests)
    }

    /**
    Past the last chunk: if two or more bytes stood behind its header when that was parsed, the end
    was noticed at once; if less did, not before a byte more than the CRLF has come.
    */
    ghost predicate Noticed(rests: seq<Bytes>)
      requires raw.Valid()
    {
      eof != -1 ==>
        && (LastRest(rests) >= 2 ==> eof == 0)
        && (LastRest(rests) < 2 && eof == 0 ==> raw.Rest() != [])
    }

    /** What the callback brings goes behind what is in the raw buffer. */
    function Filled(got: Bytes): State {
      this.(raw := if raw.NoBuffer? then Buffer(got, 0) else Buffer(raw.data + got, raw.offset))
    }

    /** The raw buffer holds something that is refused once what is left of the chunk before is skipped. */
    ghost predicate Refused()
      requires raw.Valid() && raw.Buffer? && raw.Rest() != []
    {
      var have := |raw.Rest()|;
      have != till && (have > till ==> eof == -1)
        && Unreadable(raw.data, raw.offset + if have > till then till else 0)
    }

    /** `got` completes something that is refused. */
    ghost predicate Rejects(got: Bytes)
      requires raw.Valid()
    {
      got != [] && till <= 2 && Filled(got).Refused()
    }

    /** A step with room for `len` fails: the callback is missing or fails, or what it brings is refused. */
    ghost predicate Errs(cb: Callback, len: nat)
      requires raw.Valid() && eof >= -1
    {
      Fails(cb, Asks(len)) || Rejects(Given(cb, Asks(len)))
    }

    /** How many bytes a step asks the callback for, with room for `len` at the caller's. */
    function Asks(len: nat): nat
      requires eof >= -1
    {
      if till > 2 then if len > till - 2 then till - 2 else len
      else if eof != -1 then eof
      else 1024
    }

    /** Nothing is left to do before more input comes: no complete header stands in the raw buffer. */
    ghost predicate Stuck()
      requires raw.Valid()
    {
      eof != -1 || FindHeader(raw.Rest()) == NoHeader || (raw.Rest() != [] && raw.Rest()[0] == LF)
    }

    /** Past the last chunk: how many more successful fetches, at most, until the end is noticed. */
    ghost function FetchesToEof(): nat
      requires Shape() && eof != -1
    {
      if eof == 0 then 0 else if till == 0 then 1 else 3 - |raw.Rest()|
    }
  }

  /** Past the last chunk every successful fetch brings the end nearer, and at the end there is none. */
  ghost predicate NearsEnd(was: State, now: State, fetched: bool)
    requires was.Shape() && now.Shape()
  {
    was.eof != -1 ==>
      && now.eof != -1 && (fetched ==> now.FetchesToEof() < was.FetchesToEof())
      && (was.eof == 0 ==> !fetched && now.eof == 0)
  }

  /** What is decoded already makes no difference to a step. */
  lemma DecodedApart(s: State, t: State, cb: Callback, len: nat)
    requires s.Shape() && t.Shape() && t == s.(decoded := t.decoded)
    ensures s.Errs(cb, len) == t.Errs(cb, len)
    ensures s.Asks(len) == t.Asks(len)
    ensures s.Rejects(Given(cb, s.Asks(len))) == t.Rejects(Given(cb, s.Asks(len)))
  {
    var got := Given(cb, s.Asks(len));
    assert t.Filled(got) == s.Filled(got).(decoded := t.decoded);
  }

  lemma EndHeld(was: State, mid: State, now: State, fetched: bool)
    requires was.Shape() && mid.Shape() && now.Shape() && now == mid.(decoded := now.decoded)
    requires NearsEnd(was, mid, fetched)
    ensures NearsEnd(was, now, fetched) && (now.Stuck() <==> mid.Stuck())
  {}

  lemma EndApart(s: State, t: State, now: State, fetched: bool)
    requires s.Shape() && t.Shape() && now.Shape() && t == s.(decoded := t.decoded) && NearsEnd(t, now, fetched)
    ensures NearsEnd(s, now, fetched)
  {}

  /**
  The state once a header that ends at `lf` has announced `n` bytes: what body is in the buffer is
  decoded, the CRLF behind the body is skipped if it is there too.
  */
  function AfterHeader(data: Bytes, lf: nat, n: nat): State
    requires lf < |data|
  {
    var body := lf + 1;
    if body == |data| then State(NoBuffer, NoBuffer, EofAfter(n), n + 2)
    else if |data| - body <= n then State(NoBuffer, Buffer(data, body), EofAfter(n), n + 2 - (|data| - body))
    else
      var decoded := Buffer(data[body..body + n], 0);
      if |data| - (body + n) < 2 then State(Buffer(data, body + n), decoded, EofAfter(n), 2)
      else
        var raw := if body + n + 2 == |data| then NoBuffer else Buffer(data, body + n + 2);
        State(raw, decoded, if n == 0 then 0 else -1, 0)
  }

  lemma {:induction false} AfterHeaderAdvances(r: Bytes, data: Bytes, lf: nat, n: nat, ext: Bytes)
    requires lf < |data| && TakeHeader(r) == First(Some(n), ext, data[lf + 1..])
    ensures var s := AfterHeader(data, lf, n);
      s.Shape() && Advances(0, -1, r, s.decoded.Rest(), [ext], s.till, s.eof, s.raw.Rest())
  {
    var rest, s := data[lf + 1..], AfterHeader(data, lf, n);
    AfterHeaderParts(data, lf, n, rest);
    if |rest| < n + 2 {
      BodyAlone(r, n, ext, s.decoded.Rest(), s.raw.Rest(), rest);
    } else {
      BodyThenSkip(r, n, ext, s.decoded.Rest(), rest[n..], rest);
    }
  }

  /** How `AfterHeader` cuts up what stands behind the header. */
  lemma AfterHeaderParts(data: Bytes, lf: nat, n: nat, rest: Bytes)
    requires lf < |data| && rest == data[lf + 1..]
    ensures var s := AfterHeader(data, lf, n);
      var b, c := s.decoded, s.raw;
      s.Shape() && if |rest| < n + 2
        then rest == b.Rest() + c.Rest() && |b.Rest()| <= n && s.till == n + 2 - |b.Rest()| && s.eof == EofAfter(n)
        else rest == b.Rest() + rest[n..] && c.Rest() == rest[n..][2..] && |b.Rest()| == n
             && s.till == 0 && s.eof == if n == 0 then 0 else -1
  {}

  /** The state after a header is the reference's, wherever the buffers start. */
  lemma AfterHeaderView(data: Bytes, lf: nat, n: nat, rest: Bytes, headers: seq<Bytes>, rests: seq<Bytes>)
    requires lf < |data| && rest == data[lf + 1..] && LastRest(rests) == |rest|
    ensures AfterHeader(data, lf, n).Shape() && AfterHeader(data, lf, n).Noticed(rests)
    ensures AfterHeader(data, lf, n).AsView(headers, rests) == AfterBody(rest, n, headers, rests)
  {
    AfterHeaderParts(data, lf, n, rest);
  }

  lemma {:induction false} BodyAlone(r: Bytes, n: nat, ext: Bytes, b: Bytes, c: Bytes, rest: Bytes)
    requires TakeHeader(r) == First(Some(n), ext, rest) && rest == b + c && |b| <= n
    ensures Advances(0, -1, r, b, [ext], n + 2 - |b|, EofAfter(n), c)
  {
    forall u ensures Refines(0, -1, r + u, b, [ext], n + 2 - |b|, EofAfter(n), c + u) {
      BodyStep(r, u, n, ext, b, c, rest);
    }
  }

  lemma {:induction false} BodyThenSkip(r: Bytes, n: nat, ext: Bytes, b: Bytes, left: Bytes, rest: Bytes)
    requires TakeHeader(r) == First(Some(n), ext, rest) && rest == b + left && |b| == n && |left| >= 2
    ensures Advances(0, -1, r, b, [ext], 0, if n == 0 then 0 else -1, left[2..])
  {
    var eof := EofAfter(n);
    forall u ensures Refines(0, -1, r + u, b, [ext], 0, if n == 0 then 0 else -1, left[2..] + u) {
      BodyStep(r, u, n, ext, b, left, rest);
      SkipStep(2, eof, left, u);
      RefinesTrans(0, -1, r + u, b, [ext], 2, eof, left + u, [], [], 0, eof, left[2..] + u);
      assert b + [] == b && [ext] + [] == [ext];
    }
  }

  lemma {:induction false} OneByteIsNoHeader(r: Bytes)
    requires |r| == 1
    ensures FindHeader(r) == NoHeader
  {
    assert Scan(r, 1, 1, false, -1) == NoHeader && Scan(r, 1, 0, false, 0) == NoHeader;
    assert Scan(r, 1, 0, true, -1) == NoHeader && Scan(r, 1, 0, false, -1) == NoHeader;
  }

  /** The metadata read from a header with extensions `ext` while `rest` stood behind it in the buffer. */
  function ScannedIn(ext: Bytes, rest: Bytes): seq<Extensions.Meta> {
    Extensions.Parse(ext + (CRLF + rest), 0, |ext|)
  }

  /** The metadata of all headers, in order. */
  ghost function AllScanned(headers: seq<Bytes>, rests: seq<Bytes>): seq<Extensions.Meta>
    requires |headers| == |rests|
  {
    if headers == [] then []
    else
      var n := |headers| - 1;
      AllScanned(headers[..n], rests[..n]) + ScannedIn(headers[n], rests[n])
  }

  /** The metadata scanned from every header is all that was handed over or kept. */
  ghost predicate Noted(headers: seq<Bytes>, rests: seq<Bytes>, all: seq<Extensions.Meta>) {
    |headers| == |rests| && all == AllScanned(headers, rests)
  }

  lemma NotedMore(headers: seq<Bytes>, rests: seq<Bytes>, handed: seq<Extensions.Meta>,
                  kept: seq<Extensions.Meta>, ext: Bytes, rest: Bytes)
    requires Noted(headers, rests, handed + kept)
    ensures Noted(headers + [ext], rests + [rest], handed + (kept + ScannedIn(ext, rest)))
  {
    assert (headers + [ext])[..|headers|] == headers && (rests + [rest])[..|rests|] == rests;
    assert (handed + kept) + ScannedIn(ext, rest) == handed + (kept + ScannedIn(ext, rest));
  }

  lemma HeaderCut(data: Bytes, start: nat, lf: nat)
    requires start < lf < |data| && data[lf - 1] == CR && data[lf] == LF
    ensures data[start..] == data[start..lf - 1] + (CRLF + data[lf + 1..])
  {
    assert data[lf - 1..] == [data[lf - 1]] + ([data[lf]] + data[lf + 1..]);
    assert data[start..] == data[start..lf - 1] + data[lf - 1..];
  }

  /** In the buffer or apart from it, extensions and what is behind them are read alike. */
  lemma {:induction false} ScannedInBuffer(data: Bytes, start: nat, lf: nat)
    requires start < lf < |data| && data[lf - 1] == CR && data[lf] == LF
    ensures Extensions.Parse(data, start, lf - 1) == ScannedIn(data[start..lf - 1], data[lf + 1..])
  {
    HeaderCut(data, start, lf);
    var ext := data[start..lf - 1];
    var m := ext + (CRLF + data[lf + 1..]);
    assert m[0..] == m;
    Extensions.ParseAlike(data, start, lf - 1, m, 0, |ext|);
  }

  lemma {:induction false} HeaderTaken(data: Bytes, offset: nat, textEnd: nat, lf: nat)
    requires offset <= textEnd < lf < |data| && FindHeader(data[offset..]) == Header(textEnd - offset, lf - offset)
    ensures TakeHeader(data[offset..]) ==
      First(ChunkLength(data[offset..textEnd]), data[textEnd..lf - 1], data[lf + 1..])
  {
    var r := data[offset..];
    assert r[..textEnd - offset] == data[offset..textEnd];
    assert r[textEnd - offset..lf - offset - 1] == data[textEnd..lf - 1];
    assert r[lf - offset + 1..] == data[lf + 1..];
  }

  /** Where nothing well formed can follow, any step will do. */
  lemma {:induction false} Vacuous(r: Bytes, d: Bytes, e: seq<Bytes>, till: nat, eof: int, x: Bytes)
    requires till != 1 && TakeHeader(r).First? && TakeHeader(r).length.None?
    ensures Advances(0, -1, r, d, e, till, eof, x)
  {
    forall u ensures Refines(0, -1, r + u, d, e, till, eof, x + u) {
      NeverMalformed(r, u);
    }
  }

  /**
  The reader's state tells the truth about the stream: whatever follows the bytes `fetched` so far,
  if the whole is well formed then it means what has been `said`, then what the state has left to say.
  */
  ghost predicate Tells(fetched: Bytes, said: Bytes, headers: seq<Bytes>, till: nat, eof: int, r: Bytes)
    requires till != 1
  {
    forall u {:trigger Future(u)} :: WellFormed(fetched + u) ==>
      InputOk(till, eof, r + u) && Decode(fetched + u) == Prepend(said, headers, Remaining(till, eof, r + u))
  }

  lemma {:induction false} TellsStep(fetched: Bytes, said: Bytes, headers: seq<Bytes>, till: nat, eof: int, r: Bytes,
                                     got: Bytes, d: Bytes, e: seq<Bytes>, till': nat, eof': int, r': Bytes)
    requires till != 1 && till' != 1
    requires Tells(fetched, said, headers, till, eof, r) && Advances(till, eof, r + got, d, e, till', eof', r')
    ensures Tells(fetched + got, said + d, headers + e, till', eof', r')
  {
    forall u | WellFormed(fetched + got + u)
      ensures InputOk(till', eof', r' + u)
      ensures Decode(fetched + got + u) == Prepend(said + d, headers + e, Remaining(till', eof', r' + u))
    {
      assert Future(u) && Future(got + u);
      assert fetched + got + u == fetched + (got + u) && r + got + u == r + (got + u);
      assert Refines(till, eof, r + got + u, d, e, till', eof', r' + u);
      PrependTwice(said, headers, d, e, Remaining(till', eof', r' + u));
    }
  }

  /** A stream that is in order is in order for the state that tells the truth about it. */
  lemma {:induction false} TellsOk(fetched: Bytes, said: Bytes, headers: seq<Bytes>, till: nat, eof: int, r: Bytes,
                                   u: Bytes)
    requires till != 1 && Tells(fetched, said, headers, till, eof, r)
    ensures WellFormed(fetched + u) ==> InputOk(till, eof, r + u)
  {
    assert Future(u);
  }

  lemma {:induction false} TellsStart()
    ensures Tells([], [], [], 0, -1, [])
  {
    forall u: Bytes | WellFormed([] + u)
      ensures InputOk(0, -1, [] + u) && Decode([] + u) == Prepend([], [], Remaining(0, -1, [] + u))
    {
      PrependNothing(Decode([] + u));
    }
  }

  /** `__copy_buffer`: moves up to `len` bytes out of a buffer, which is gone once it is empty. */
  method CopyBuffer(b: Buffer, len: nat) returns (ret: int, out: Bytes, rest: Buffer)
    requires b.Valid()
    ensures rest.Valid() && out + rest.Rest() == b.Rest()
    ensures len == 0 ==> ret == 0 && rest == b
    ensures len > 0 && b.NoBuffer? ==> ret == -1
    ensures len > 0 && b.Buffer? ==> ret == |out| == if len < |b.Rest()| then len else |b.Rest()|
    ensures |out| <= len && (|out| < len ==> rest == NoBuffer)
  {
    out, rest := [], b;
    if len == 0 {
      return 0, [], b;
    }
    if b.NoBuffer? {
      return -1, [], b;
    }
    var have := |b.data| - b.offset;
    var todo := if len < have then len else have;
    out := b.data[b.offset..b.offset + todo];
    rest := Buffer(b.data, b.offset + todo);
    assert out + rest.Rest() == b.Rest();
    if rest.offset == |rest.data| {
      rest := NoBuffer;
    }
    ret := todo;
  }

  class Decoder {
    var raw: Buffer
    var decoded: Buffer
    var bytesTillEof: int
    var readBytesTillHeader: nat
    var metaRead: seq<Extensions.Meta>

    /** All bytes fetched from the callback and all bytes given to the caller so far. */
    ghost var fetched: Bytes
    ghost var delivered: Bytes
    /** The extensions of every header read, and what stood behind each in the buffer when it was read. */
    ghost var headers: seq<Bytes>
    ghost var rests: seq<Bytes>
    /** Metadata the caller has fetched. */
    ghost var handed: seq<Extensions.Meta>

    function Now(): State
      reads this
    {
      State(raw, decoded, bytesTillEof, readBytesTillHeader)
    }

    ghost function AsView(): View
      reads this
      requires raw.Valid() && decoded.Valid()
    {
      Now().AsView(headers, rests)
    }

    ghost predicate Valid()
      reads this
    {
      && Now().Shape() && Metadata() && Now().Noticed(rests)
      && Tells(fetched, delivered + decoded.Rest(), headers, readBytesTillHeader, bytesTillEof, raw.Rest())
    }

    constructor ()
      ensures Valid() && fetched == [] && delivered == [] && headers == [] && rests == [] && metaRead == []
      ensures raw == NoBuffer && decoded == NoBuffer && bytesTillEof == -1 && readBytesTillHeader == 0
    {
      raw, decoded, bytesTillEof, readBytesTillHeader, metaRead := NoBuffer, NoBuffer, -1, 0, [];
      fetched, delivered, headers, rests, handed := [], [], [], [], [];
      new;
      TellsStart();
      assert delivered + decoded.Rest() == [];
    }

    /** Metadata read so far, header by header. */
    ghost predicate Metadata()
      reads this
    {
      Noted(headers, rests, handed + metaRead)
    }

    /** The metadata read from the i-th header. */
    ghost function Scanned(i: nat): seq<Extensions.Meta>
      reads this
      requires i < |headers| == |rests|
    {
      ScannedIn(headers[i], rests[i])
    }

    /** A complete header that announced `n` bytes is behind; its LF is at `lf`. */
    method ConsumeHeader(lf: nat, n: nat)
      requires raw.Buffer? && lf < |raw.data| && bytesTillEof == -1 && decoded == NoBuffer
      modifies this`raw, this`decoded, this`bytesTillEof, this`readBytesTillHeader
      ensures Now() == AfterHeader(old(raw.data), lf, n)
    {
      raw := Buffer(raw.data, lf + 1);
      if n == 0 {
        bytesTillEof := 2;
      }
      if raw.offset == |raw.data| {
        raw := NoBuffer;
        readBytesTillHeader := n + 2;
        return;
      }
      if |raw.data| - raw.offset <= n {
        decoded := raw;
        raw := NoBuffer;
        readBytesTillHeader := n + 2 - (|decoded.data| - decoded.offset);
        return;
      }
      decoded := Buffer(raw.data[raw.offset..raw.offset + n], 0);
      raw := Buffer(raw.data, raw.offset + n);
      readBytesTillHeader := 2;
      if |raw.data| - raw.offset >= 2 {
        raw := Buffer(raw.data, raw.offset + 2);
        readBytesTillHeader := 0;
        if bytesTillEof != -1 {
          bytesTillEof := 0;
        }
        if |raw.data| - raw.offset == 0 {
          raw := NoBuffer;
        }
      }
    }

    /** The metadata of one more header is kept for the caller. */
    method NoteMetadata(ghost ext: Bytes, ghost rest: Bytes, metas: seq<Extensions.Meta>)
      requires metas == ScannedIn(ext, rest)
      modifies this`metaRead, this`headers, this`rests
      ensures headers == old(headers) + [ext] && rests == old(rests) + [rest] && metaRead == old(metaRead) + metas
      ensures old(Metadata()) ==> Metadata()
    {
      if Metadata() {
        NotedMore(headers, rests, handed, metaRead, ext, rest);
      }
      metaRead := metaRead + metas;
      headers, rests := headers + [ext], rests + [rest];
    }

    /** `httpp_encoding_get_meta`: all metadata read since the last call, in order. */
    method GetMeta() returns (metas: seq<Extensions.Meta>)
      requires Valid()
      modifies this`metaRead, this`handed
      ensures Valid() && metas == old(metaRead) && metaRead == [] && handed == old(handed) + metas
    {
      metas := metaRead;
      assert (handed + metaRead) + [] == handed + metaRead;
      metaRead, handed := [], handed + metaRead;
    }

    /** The header of `r`, which ends at `lf`, has been read: what there is of its chunk is taken. */
    method TakeBody(lf: nat, n: nat, ghost r: Bytes, ghost ext: Bytes)
      requires raw.Buffer? && lf < |raw.data| && TakeHeader(r) == First(Some(n), ext, raw.data[lf + 1..])
      requires bytesTillEof == -1 && decoded == NoBuffer && LastRest(rests) == |TakeHeader(r).rest|
      modifies this`raw, this`decoded, this`bytesTillEof, this`readBytesTillHeader
      ensures Now().Shape() && Now().Noticed(rests) && AsView() == AfterBody(TakeHeader(r).rest, n, headers, rests)
      ensures Advances(0, -1, r, decoded.Rest(), [ext], readBytesTillHeader, bytesTillEof, raw.Rest())
    {
      AfterHeaderAdvances(r, raw.data, lf, n, ext);
      AfterHeaderView(raw.data, lf, n, raw.data[lf + 1..], headers, rests);
      ConsumeHeader(lf, n);
    }

    /** Reads the extensions between `textEnd` and the CR, if there are any. */
    method TakeExtensions(offsetExtensions: int, textEnd: nat, offsetLF: nat) returns (ghost ext: Bytes)
      requires raw.Buffer? && raw.offset <= textEnd < offsetLF < |raw.data|
      requires offsetExtensions == (if textEnd == offsetLF - 1 then -1 else textEnd)
      requires raw.data[offsetLF - 1] == CR && raw.data[offsetLF] == LF
      modifies this`metaRead, this`headers, this`rests
      ensures ext == raw.data[textEnd..offsetLF - 1]
      ensures headers == old(headers) + [ext] && rests == old(rests) + [raw.data[offsetLF + 1..]]
      ensures metaRead == old(metaRead) + Extensions.Parse(raw.data, textEnd, offsetLF - 1)
      ensures old(Metadata()) ==> Metadata()
    {
      var offsetCR := offsetLF - 1;
      ScannedInBuffer(raw.data, textEnd, offsetLF);
      ext := raw.data[textEnd..offsetCR];
      var metas := [];
      if offsetExtensions != -1 {
        metas := Extensions.ReadExtensions(raw.data, offsetExtensions, offsetCR);
      }
      NoteMetadata(ext, raw.data[offsetLF + 1..], metas);
    }

    /** A complete header stands at the front of the raw buffer: extensions, length, then the body. */
    method TakeOff(offsetExtensions: int, textEnd: nat, offsetLF: nat) returns (ret: int, ghost ext: Bytes)
      requires Now().Shape() && raw.Buffer? && decoded == NoBuffer && readBytesTillHeader == 0 && bytesTillEof == -1
      requires raw.offset <= textEnd < offsetLF < |raw.data|
      requires offsetExtensions == (if textEnd == offsetLF - 1 then -1 else textEnd)
      requires FindHeader(raw.Rest()) == Header(textEnd - raw.offset, offsetLF - raw.offset)
      requires raw.data[offsetLF - 1] == CR && raw.data[offsetLF] == LF
      modifies this
      ensures Now().Shape() && (ret == 0 || ret == -1) && unchanged(`fetched, `delivered, `handed)
      ensures TakeHeader(old(raw.Rest())).First? && ext == TakeHeader(old(raw.Rest())).ext
      ensures headers == old(headers) + [ext] && rests == old(rests) + [TakeHeader(old(raw.Rest())).rest]
      ensures metaRead == old(metaRead) + Extensions.Parse(old(raw.data), textEnd, offsetLF - 1)
      ensures old(Metadata()) ==> Metadata()
      ensures Advances(0, -1, old(raw.Rest()), decoded.Rest(), [ext], readBytesTillHeader, bytesTillEof, raw.Rest())
      ensures ret == -1 ==> decoded == NoBuffer
      ensures ret == -1 ==> !InputOk(0, -1, old(raw.Rest()))
      ensures ret == -1 <==> TakeHeader(old(raw.Rest())).length.None?
      ensures ret == 0 ==> AsView() == Parsed(old(AsView()))
      ensures Now().Noticed(rests)
    {
      ghost var r := raw.Rest();
      HeaderTaken(raw.data, raw.offset, textEnd, offsetLF);
      ext := TakeExtensions(offsetExtensions, textEnd, offsetLF);
      var length := ChunkLength(raw.data[raw.offset..textEnd]);
      raw := Buffer(raw.data[textEnd := 0], raw.offset);
      if length.None? {
        Vacuous(r, decoded.Rest(), [ext], readBytesTillHeader, bytesTillEof, raw.Rest());
        NeverMalformed(r, []);
        assert r + [] == r;
        ret := -1;
      } else {
        assert raw.data[offsetLF + 1..] == old(raw.data)[offsetLF + 1..];
        TakeBody(offsetLF, length.value, r, ext);
        ret := 0;
      }
    }

    /** The second half of a chunked read: what is in the raw buffer is scanned for a header. */
    method ParseRaw() returns (ret: int, ghost e: seq<Bytes>)
      requires Now().Shape() && raw.Buffer? && decoded == NoBuffer
      requires (readBytesTillHeader == 0 && bytesTillEof == -1) || (readBytesTillHeader == 2 && |raw.Rest()| == 1)
      modifies this
      ensures Now().Shape() && (ret == 0 || ret == -1) && unchanged(`fetched, `delivered, `handed)
      ensures headers == old(headers) + e && (old(Metadata()) ==> Metadata())
      ensures old(bytesTillEof) != -1 ==> Now() == old(Now())
      ensures Advances(old(readBytesTillHeader), old(bytesTillEof), old(raw.Rest()),
                       decoded.Rest(), e, readBytesTillHeader, bytesTillEof, raw.Rest())
      ensures e != [] || Now().Stuck()
      ensures ret == -1 ==> decoded == NoBuffer
      ensures ret == -1 ==> !InputOk(old(readBytesTillHeader), old(bytesTillEof), old(raw.Rest()))
      ensures ret == -1 <==> Unreadable(old(raw.data), old(raw.offset))
      ensures ret == 0 ==> AsView() == Parsed(old(AsView()))
      ensures old(Now().Noticed(rests)) ==> Now().Noticed(rests)
    {
      ghost var r := raw.Rest();
      var offsetExtensions, offsetCR, offsetLF := ScanHeader(raw.data, raw.offset);
      // A CR at -1 is a bare LF at the very start of the buffer: no well-formed input leads here,
      // and the original goes on to write in front of the buffer.
      if offsetLF == -1 || offsetCR == -1 {
        Stays(readBytesTillHeader, bytesTillEof, r);
        if offsetLF != -1 { NeverLF(readBytesTillHeader, bytesTillEof, r); }
        e := [];
        return if offsetLF == -1 then 0 else -1, [];
      }
      if |r| == 1 {
        OneByteIsNoHeader(r);
      }
      var textEnd := if offsetExtensions != -1 then offsetExtensions else offsetCR;
      ghost var ext;
      ret, ext := TakeOff(offsetExtensions, textEnd, offsetLF);
      e := [ext];
    }

    /**
    `__enc_chunked_read`: one call of the callback, then what can be done with what it brought.
    `got` is what it brought; `out` goes straight to the caller.
    */
    method ProcessRead(len: nat, cb: Callback) returns (ret: int, out: Bytes, ghost got: Bytes, ghost e: seq<Bytes>)
      requires Now().Shape() && decoded == NoBuffer && len > 0 && LegalCallback(cb)
      modifies this
      ensures Now().Shape() && unchanged(`delivered, `handed)
      ensures fetched == old(fetched) + got && headers == old(headers) + e && (old(Metadata()) ==> Metadata())
      ensures (ret == -1 && out == []) || ret == |out| <= len
      ensures old(bytesTillEof) != -1 ==> bytesTillEof != -1 && out == [] == decoded.Rest()
      ensures NearsEnd(old(Now()), Now(), got != [])
      ensures Advances(old(readBytesTillHeader), old(bytesTillEof), old(raw.Rest()) + got,
                       out + decoded.Rest(), e, readBytesTillHeader, bytesTillEof, raw.Rest())
      ensures got == Given(cb, old(Now()).Asks(len))
      ensures got != [] ==> out + decoded.Rest() != [] || e != [] || Now().Stuck()
      ensures ret == -1 ==> decoded == NoBuffer
      ensures got == [] ==> Now() == old(Now()) && metaRead == old(metaRead) && e == [] && out == []
      ensures ret != -1 || got == [] ==> Exact(old(AsView()), got, out, AsView())
      ensures ret == -1 ==>
        Fails(cb, old(Now()).Asks(len)) || !InputOk(old(readBytesTillHeader), old(bytesTillEof), old(raw.Rest()) + got)
      ensures ret == -1 <==> old(Now()).Errs(cb, len)
      ensures old(Now().Noticed(rests)) ==> Now().Noticed(rests)
    {
      out, got, e := [], [], [];
      ghost var h, f := headers, fetched;
      assert h + [] == h && f + [] == f;
      if cb.NoCallback? {
        ret := -1;
        StaysPut(readBytesTillHeader, bytesTillEof, raw.Rest());
      } else if readBytesTillHeader > 2 {
        ret, out, got := ReadBody(len, cb);
      } else {
        ret, got, e := ReadHeader(cb, len);
        assert [] + decoded.Rest() == decoded.Rest();
      }
    }

    /** More bytes into the raw buffer: 1024 at most, or what the end of the stream still lacks. */
    method Refill(cb: Callback) returns (ret: int, got: Bytes)
      requires Now().Shape() && LegalCallback(cb) && cb.Callback? && readBytesTillHeader <= 2
      modifies this`raw, this`fetched
      ensures raw.Valid() && raw.Rest() == old(raw.Rest()) + got && fetched == old(fetched) + got
      ensures got == [] ==> raw == old(raw) && (ret == 0 || ret == -1)
      ensures got != [] ==> raw.Buffer? && ret > 0 && |got| <= (if bytesTillEof == -1 then 1024 else bytesTillEof)
      ensures got == Given(cb, old(Now()).Asks(1))
      ensures ret == -1 <==> Fails(cb, old(Now()).Asks(1))
      ensures got != [] ==> Now() == old(Now()).Filled(got)
    {
      var buflen := if bytesTillEof != -1 then bytesTillEof else 1024;
      if raw == NoBuffer {
        raw := Buffer([], 0);
      }
      var reply := cb.read(buflen);
      if reply.Refused? {
        if |raw.data| == 0 {
          raw := NoBuffer;
        }
        return reply.ret, [];
      }
      got := reply.bytes;
      raw := Buffer(raw.data + got, raw.offset);
      fetched := fetched + got;
      ret := |got|;
    }

    /** Skips what is left of the chunk before; `done` if that was all there was. */
    method SkipEnd() returns (done: bool)
      requires raw.Valid() && raw.Buffer? && raw.Rest() != [] && decoded == NoBuffer
      requires (readBytesTillHeader == 0 || readBytesTillHeader == 2) && (bytesTillEof == -1 || bytesTillEof == 2)
      modifies this`raw, this`readBytesTillHeader, this`bytesTillEof
      ensures Now().Shape()
      ensures !done ==>
        && raw.Buffer?
        && ((readBytesTillHeader == 0 && bytesTillEof == -1) || (readBytesTillHeader == 2 && |raw.Rest()| == 1))
      ensures Advances(old(readBytesTillHeader), old(bytesTillEof), old(raw.Rest()),
                       [], [], readBytesTillHeader, bytesTillEof, raw.Rest())
      ensures old(bytesTillEof) == 2 ==>
        && (bytesTillEof == 0 <==> |old(raw.Rest())| > old(readBytesTillHeader))
        && (|old(raw.Rest())| == old(readBytesTillHeader) ==> readBytesTillHeader == 0 && bytesTillEof == 2)
        && (|old(raw.Rest())| < old(readBytesTillHeader) ==> Now() == old(Now()))
      ensures done ==> Now().Stuck() && !old(Now()).Refused()
      ensures !done ==> (Unreadable(raw.data, raw.offset) <==> old(Now()).Refused())
      ensures AsView() == Skipped(old(AsView())) && (done ==> Parsed(AsView()) == AsView())
      ensures old(Now().Noticed(rests)) ==> Now().Noticed(rests)
    {
      ghost var r, till := raw.Rest(), readBytesTillHeader;
      var have := |raw.data| - raw.offset;
      if have >= readBytesTillHeader {
        SkipAdvances(till, bytesTillEof, r);
      } else {
        Stays(till, bytesTillEof, r);
      }
      if have == readBytesTillHeader {
        assert r[till..] == [];
        raw := NoBuffer;
        readBytesTillHeader := 0;
        return true;
      } else if have > readBytesTillHeader {
        raw := Buffer(raw.data, raw.offset + readBytesTillHeader);
        assert raw.Rest() == r[till..];
        readBytesTillHeader := 0;
      }
      if bytesTillEof != -1 && readBytesTillHeader == 0 {
        EofAdvances(till, r, [], raw.Rest());
        bytesTillEof := 0;
      }
      done := bytesTillEof == 0;
    }

    /** At most the end of a chunk is left before the next header: bytes go to the raw buffer. */
    method ReadHeader(cb: Callback, ghost len: nat) returns (ret: int, ghost got: Bytes, ghost e: seq<Bytes>)
      requires Now().Shape() && decoded == NoBuffer && LegalCallback(cb) && cb.Callback?
      requires readBytesTillHeader <= 2
      modifies this
      ensures Now().Shape() && unchanged(`delivered, `handed)
      ensures fetched == old(fetched) + got && headers == old(headers) + e && (old(Metadata()) ==> Metadata())
      ensures ret == -1 || ret == 0
      ensures old(bytesTillEof) != -1 ==> bytesTillEof != -1 && decoded.Rest() == []
      ensures NearsEnd(old(Now()), Now(), got != [])
      ensures Advances(old(readBytesTillHeader), old(bytesTillEof), old(raw.Rest()) + got,
                       decoded.Rest(), e, readBytesTillHeader, bytesTillEof, raw.Rest())
      ensures got == Given(cb, old(Now()).Asks(len))
      ensures got != [] ==> e != [] || Now().Stuck()
      ensures ret == -1 ==> decoded == NoBuffer
      ensures got == [] ==> Now() == old(Now()) && metaRead == old(metaRead) && e == []
      ensures ret == 0 || got == [] ==> Exact(old(AsView()), got, [], AsView())
      ensures ret == -1 ==>
        Fails(cb, old(Now()).Asks(len)) || !InputOk(old(readBytesTillHeader), old(bytesTillEof), old(raw.Rest()) + got)
      ensures ret == -1 <==> old(Now()).Errs(cb, len)
      ensures old(Now().Noticed(rests)) ==> Now().Noticed(rests)
    {
      e := [];
      ghost var v := AsView();
      var bytes;
      ret, bytes := Refill(cb);
      got := bytes;
      assert headers + [] == headers;
      if bytes == [] {
        Stays(readBytesTillHeader, bytesTillEof, raw.Rest());
        HeaderExact(v, [], AsView());
        return;
      }
      ret, e := SkipAndParse();
      if ret == 0 { HeaderExact(v, got, AsView()); }
    }

    /** What can be done with the raw buffer once it has grown: the end of a chunk, then one header. */
    method SkipAndParse() returns (ret: int, ghost e: seq<Bytes>)
      requires raw.Valid() && raw.Buffer? && raw.Rest() != [] && decoded == NoBuffer
      requires (readBytesTillHeader == 0 || readBytesTillHeader == 2) && (bytesTillEof == -1 || bytesTillEof == 2)
      modifies this
      ensures Now().Shape() && (ret == 0 || ret == -1) && unchanged(`fetched, `delivered, `handed)
      ensures headers == old(headers) + e && (old(Metadata()) ==> Metadata())
      ensures Advances(old(readBytesTillHeader), old(bytesTillEof), old(raw.Rest()),
                       decoded.Rest(), e, readBytesTillHeader, bytesTillEof, raw.Rest())
      ensures old(bytesTillEof) == 2 ==>
        && (bytesTillEof == 0 <==> |old(raw.Rest())| > old(readBytesTillHeader))
        && (|old(raw.Rest())| == old(readBytesTillHeader) ==> readBytesTillHeader == 0 && bytesTillEof == 2)
        && (|old(raw.Rest())| < old(readBytesTillHeader) ==> Now() == old(Now()))
      ensures e != [] || Now().Stuck()
      ensures ret == -1 ==>
        decoded == NoBuffer && !InputOk(old(readBytesTillHeader), old(bytesTillEof), old(raw.Rest()))
      ensures ret == -1 <==> old(Now()).Refused()
      ensures ret == 0 ==> AsView() == Parsed(Skipped(old(AsView())))
      ensures old(Now().Noticed(rests)) ==> Now().Noticed(rests)
    {
      ghost var till0, eof0, r := readBytesTillHeader, bytesTillEof, raw.Rest();
      e, ret := [], 0;
      assert headers + [] == headers;
      var done := SkipEnd();
      if done {
        return;
      }
      ghost var r1, till1, eof1 := raw.Rest(), readBytesTillHeader, bytesTillEof;
      ret, e := ParseRaw();
      SkippedFirst(till0, eof0, r, till1, eof1, r1,
                   decoded.Rest(), e, readBytesTillHeader, bytesTillEof, raw.Rest());
    }

    /** In the middle of a chunk body: bytes go from the callback to the caller. */
    method ReadBody(len: nat, cb: Callback) returns (ret: int, out: Bytes, ghost got: Bytes)
      requires Now().Shape() && decoded == NoBuffer && len > 0 && LegalCallback(cb) && cb.Callback?
      requires readBytesTillHeader > 2
      modifies this
      ensures Now().Shape() && unchanged(`delivered, `headers, `rests, `metaRead, `handed, `decoded, `raw)
      ensures fetched == old(fetched) + got
      ensures (ret == -1 && out == []) || ret == |out| <= len
      ensures Advances(old(readBytesTillHeader), old(bytesTillEof), old(raw.Rest()) + got,
                       out + decoded.Rest(), [], readBytesTillHeader, bytesTillEof, raw.Rest())
      ensures got == Given(cb, old(Now()).Asks(len)) && out == got
      ensures got == [] ==> Now() == old(Now())
      ensures ret == -1 <==> Fails(cb, old(Now()).Asks(len))
      ensures Exact(old(AsView()), got, out, AsView()) && bytesTillEof == -1
    {
      var todo := if len > readBytesTillHeader - 2 then readBytesTillHeader - 2 else len;
      var reply := cb.read(todo);
      if reply.Refused? {
        StaysPut(readBytesTillHeader, bytesTillEof, raw.Rest());
        assert fetched == fetched + [];
        return reply.ret, [], [];
      }
      got := reply.bytes;
      BodyAdvances(readBytesTillHeader, got);
      assert [] + got == got && got + [] == got;
      readBytesTillHeader := readBytesTillHeader - |reply.bytes|;
      fetched := fetched + got;
      return |reply.bytes|, reply.bytes, got;
    }

    /** One step of the decoder, with the decoded buffer empty; what comes straight through is delivered. */
    method Step(len: nat, cb: Callback) returns (ret: int, out: Bytes)
      requires Valid() && decoded == NoBuffer && len > 0 && LegalCallback(cb)
      modifies this
      ensures Valid() && delivered == old(delivered) + out && old(fetched) <= fetched
      ensures (ret == -1 && out == []) || ret == |out| <= len
      ensures old(bytesTillEof) != -1 ==> bytesTillEof != -1 && out == [] == decoded.Rest()
      ensures ret == -1 ==> decoded == NoBuffer
      ensures handed == old(handed)
      ensures var got := Given(cb, old(Now()).Asks(len));
        && fetched == old(fetched) + got && NearsEnd(old(Now()), Now(), got != [])
        && (got == [] ==> Now() == old(Now()) && headers == old(headers) && metaRead == old(metaRead) && out == [])
        && (got != [] ==> out + decoded.Rest() != [] || |headers| > |old(headers)| || Now().Stuck())
        && (!old(Now()).Rejects(got) ==> Exact(old(AsView()), got, out, AsView()))
        && (ret == -1 <==> old(Now()).Errs(cb, len))
        && (WellFormed(fetched) ==> !old(Now()).Rejects(got))
    {
      ghost var got, e;
      ghost var said, h, till, eof, r := delivered + [], headers, readBytesTillHeader, bytesTillEof, raw.Rest();
      ghost var f := fetched;
      ret, out, got, e := ProcessRead(len, cb);
      TellsStep(f, said, h, till, eof, r, got, out + decoded.Rest(), e, readBytesTillHeader, bytesTillEof, raw.Rest());
      TellsOk(f, said, h, till, eof, r, got);
      Handed(delivered, out, decoded.Rest());
      delivered := delivered + out;
    }

    /** A step, then as much of what it decoded as there is room for. */
    method StepAndDrain(len: nat, cb: Callback) returns (ret: int, out: Bytes)
      requires Valid() && decoded == NoBuffer && len > 0 && LegalCallback(cb)
      modifies this
      ensures Valid() && delivered == old(delivered) + out && |out| <= len && old(fetched) <= fetched
      ensures ret == |out| || (ret == -1 && out == [])
      ensures old(bytesTillEof) != -1 ==> bytesTillEof != -1 && out == [] == decoded.Rest()
      ensures |out| == len || decoded == NoBuffer
      ensures handed == old(handed)
      ensures var got := Given(cb, old(Now()).Asks(len));
        && fetched == old(fetched) + got && NearsEnd(old(Now()), Now(), got != [])
        && (got == [] ==> Now() == old(Now()) && headers == old(headers) && metaRead == old(metaRead) && out == [])
        && (got != [] ==> out + decoded.Rest() != [] || |headers| > |old(headers)| || Now().Stuck())
        && (!old(Now()).Rejects(got) ==> Exact(old(AsView()), got, out, AsView()))
        && (ret == -1 <==> old(Now()).Errs(cb, len))
        && (WellFormed(fetched) ==> !old(Now()).Rejects(got))
    {
      ret, out := Step(len, cb);
      ghost var mid := Now();
      ret, out := DrainAfter(ret, out, len, old(AsView()), Given(cb, old(Now()).Asks(len)), old(delivered));
      EndHeld(old(Now()), mid, Now(), Given(cb, old(Now()).Asks(len)) != []);
    }

    /** Delivers from the decoded buffer behind `first`, which the step `got` led to has delivered, unless it failed. */
    method DrainAfter(stepped: int, first: Bytes, len: nat, ghost v: View, ghost got: Bytes, ghost before: Bytes)
      returns (ret: int, out: Bytes)
      requires Valid() && delivered == before + first
      requires (stepped == -1 && first == [] && decoded == NoBuffer) || stepped == |first| <= len
      modifies this`decoded, this`delivered
      ensures Valid() && delivered == before + out && |out| <= len && (|out| == len || decoded == NoBuffer)
      ensures ret == if stepped == -1 then -1 else |out|
      ensures out + decoded.Rest() == first + old(decoded.Rest()) && (old(decoded.Rest()) == [] ==> out == first)
      ensures Exact(v, got, first, old(AsView())) ==> Exact(v, got, out, AsView())
    {
      ret, out := stepped, first;
      if ret == -1 || |first| == len {
        return;
      }
      ghost var v1 := AsView();
      var r, more := Drain(len - |first|);
      Handed(before, first, more);
      Handed(first, more, decoded.Rest());
      if Exact(v, got, first, v1) {
        DrainExact(v, got, first, v1, more, AsView());
      }
      out := first + more;
      ret := |out|;
    }

    /** The rest of a read that has `first` already and found the decoded buffer exhausted. */
    method Continue(first: Bytes, len: nat, cb: Callback) returns (ret: int, out: Bytes, ghost more: Bytes)
      requires Valid() && decoded == NoBuffer && |first| < len && LegalCallback(cb)
      modifies this
      ensures Valid() && out == first + more && delivered == old(delivered) + more && |out| <= len
      ensures ret == |out| || (ret == -1 && out == [])
      ensures old(bytesTillEof) != -1 ==> bytesTillEof != -1 && more == [] && decoded == NoBuffer
      ensures |out| == len || decoded == NoBuffer
      ensures handed == old(handed)
      ensures var got := Given(cb, old(Now()).Asks(len - |first|));
        && fetched == old(fetched) + got && NearsEnd(old(Now()), Now(), got != [])
        && (got == [] ==> Now() == old(Now()) && headers == old(headers) && metaRead == old(metaRead) && more == [])
        && (got != [] ==> more + decoded.Rest() != [] || |headers| > |old(headers)| || Now().Stuck())
        && (!old(Now()).Rejects(got) ==> Exact(old(AsView()), got, more, AsView()))
        && (ret == -1 <==> first == [] && old(Now()).Errs(cb, len))
        && (WellFormed(fetched) ==> !old(Now()).Rejects(got))
    {
      var rest;
      ret, rest := StepAndDrain(len - |first|, cb);
      ret := if ret != -1 then |first| + ret else if first != [] then |first| else -1;
      out, more := first + rest, rest;
    }

    /**
    `httpp_encoding_read`: up to `len` bytes, first from the decoded buffer, then from one step of
    the decoder.  `Valid` is the promise kept: nothing lost, nothing twice, nothing out of order.
    */
    method Read(len: nat, cb: Callback) returns (ret: int, out: Bytes)
      requires Valid() && LegalCallback(cb)
      modifies this
      ensures Valid() && delivered == old(delivered) + out && |out| <= len
      ensures ret == |out| || (ret == -1 && out == [])
      ensures old(bytesTillEof) != -1 ==> bytesTillEof != -1 && out + decoded.Rest() == old(decoded.Rest())
      ensures |out| == len || decoded == NoBuffer
      ensures handed == old(handed)
      ensures var got := Fetch(old(Now()), len, cb);
        && fetched == old(fetched) + got && NearsEnd(old(Now()), Now(), got != [])
        && (got == [] ==> fetched == old(fetched) && headers == old(headers) && metaRead == old(metaRead))
        && (got != [] ==>
              |out| + |decoded.Rest()| > |old(decoded.Rest())| || |headers| > |old(headers)| || Now().Stuck())
        && (!old(Now()).Rejects(got) ==>
              AsView().(decoded := out + decoded.Rest()) == ReadStep(old(AsView()), got))
        && (ret == -1 <==> len > 0 && old(decoded.Rest()) == [] && old(Now()).Errs(cb, len))
        && (WellFormed(fetched) ==> !old(Now()).Rejects(got))
    {
      ghost var was, v := Now(), AsView();
      out := Serve(len);
      ret := |out|;
      if ret == len {
        Handed(fetched, [], []);
        return;
      }
      ret, out := ReadOn(out, len, cb, was, v, old(delivered));
    }

    /**
    A read in plain terms.  Of a chunk body it asks for what is left of the body, or for as much as
    there is room for, and hands out what comes; between chunks it asks for 1024 bytes, and past the
    last one for what the end of the stream still lacks.
    */
    method ReadPlainly(len: nat, cb: Callback) returns (ret: int, out: Bytes)
      requires Valid() && LegalCallback(cb) && cb.Callback? && len > |decoded.Rest()|
      modifies this
      ensures Valid() && delivered == old(delivered) + out
      ensures var have, left := old(decoded.Rest()), old(readBytesTillHeader) - 2;
        old(readBytesTillHeader) > 2 ==>
          var asked := if len - |have| < left then len - |have| else left;
          match cb.read(asked)
          case Got(bytes) =>
            out == have + bytes && fetched == old(fetched) + bytes && readBytesTillHeader - 2 == left - |bytes|
          case Refused(_) => out == have && fetched == old(fetched) && readBytesTillHeader - 2 == left
      ensures old(readBytesTillHeader) <= 2 ==>
        match cb.read(if old(bytesTillEof) == -1 then 1024 else old(bytesTillEof))
        case Got(bytes) => fetched == old(fetched) + bytes
        case Refused(_) => fetched == old(fetched)
    {
      ghost var was, v := Now(), AsView();
      ret, out := Read(len, cb);
      AsksPlainly(was, len, cb);
      if was.till > 2 {
        DirectRead(v, Fetch(was, len, cb), len, out, decoded.Rest(), AsView());
      }
    }

    /** What is decoded already, as far as there is room. */
    method Serve(len: nat) returns (out: Bytes)
      requires Valid()
      modifies this`decoded, this`delivered
      ensures Valid() && delivered == old(delivered) + out && out + decoded.Rest() == old(decoded.Rest())
      ensures |out| == (if len <= |old(decoded.Rest())| then len else |old(decoded.Rest())|)
      ensures |out| < len ==> decoded == NoBuffer && out == old(decoded.Rest())
      ensures AsView().(decoded := out + decoded.Rest()) == ReadStep(old(AsView()), [])
    {
      ghost var v := AsView();
      if len == 0 {
        Handed(delivered, [], decoded.Rest());
        out := [];
      } else {
        var ret;
        ret, out := Drain(len);
      }
      NothingFetched(v, out, AsView());
    }

    /** The rest of a read that began in the state `was` and has delivered `first`, all that was decoded then. */
    method ReadOn(first: Bytes, len: nat, cb: Callback, ghost was: State, ghost v: View, ghost before: Bytes)
      returns (ret: int, out: Bytes)
      requires Valid() && decoded == NoBuffer && |first| < len && LegalCallback(cb)
      requires was.Shape() && Now() == was.(decoded := NoBuffer) && first == was.decoded.Rest()
      requires v == AsView().(decoded := first) && delivered == before + first
      modifies this
      ensures Valid() && delivered == before + out && |out| <= len
      ensures ret == |out| || (ret == -1 && out == [])
      ensures was.eof != -1 ==> bytesTillEof != -1 && out + decoded.Rest() == first
      ensures |out| == len || decoded == NoBuffer
      ensures handed == old(handed)
      ensures var got := Fetch(was, len, cb);
        && fetched == old(fetched) + got && NearsEnd(was, Now(), got != [])
        && (got == [] ==> fetched == old(fetched) && headers == old(headers) && metaRead == old(metaRead))
        && (got != [] ==> |out| + |decoded.Rest()| > |first| || |headers| > |old(headers)| || Now().Stuck())
        && (!was.Rejects(got) ==>
              AsView().(decoded := out + decoded.Rest()) == ReadStep(v, got))
        && (ret == -1 <==> first == [] && was.Errs(cb, len))
        && (WellFormed(fetched) ==> !was.Rejects(got))
    {
      ghost var mid := Now();
      DecodedApart(was, mid, cb, len);
      DecodedApart(was, mid, cb, len - |first|);
      Handed(fetched, [], []);
      ghost var more;
      ret, out, more := Continue(first, len, cb);
      EndApart(was, mid, Now(), Fetch(was, len, cb) != []);
      Handed(before, first, more);
      Handed(first, more, decoded.Rest());
      ghost var got := Given(cb, mid.Asks(len - |first|));
      if Exact(v.(decoded := []), got, more, AsView()) {
        ReadExact(v, got, more, AsView());
      }
    }

    /**
    `httpp_encoding_eof` without a callback says yes only if the last chunk's header and at least two
    bytes behind it have been fetched, and all the stream carries has been delivered.
    */
    method Eof() returns (eof: bool)
      requires Valid()
      ensures eof <==> bytesTillEof == 0 && decoded.Rest() == []
      ensures eof && WellFormed(fetched) ==> Decode(fetched).tail >= 2 && delivered == Decode(fetched).data
    {
      eof := decoded.Rest() == [] && bytesTillEof == 0;
      if WellFormed(fetched) {
        Said();
      }
    }

    /** What is known of the stream so far, from what has been fetched alone. */
    lemma {:induction false} Said()
      requires Valid() && WellFormed(fetched)
      ensures Decode(fetched) ==
        Prepend(delivered + decoded.Rest(), headers, Remaining(readBytesTillHeader, bytesTillEof, raw.Rest()))
      ensures bytesTillEof != -1 ==>
        && Decode(fetched).data == delivered + decoded.Rest() && Decode(fetched).exts == headers
        && Decode(fetched).tail == |raw.Rest()| + 2 - readBytesTillHeader
      ensures bytesTillEof == 2 ==> Decode(fetched).tail <= 2
    {
      var none: Bytes := [];
      assert Future(none);
      assert fetched + none == fetched && raw.Rest() + none == raw.Rest();
    }

    /**
    When the end is noticed: with more than the final CRLF behind the last header always, with less
    never, and with that alone exactly if it was there when the header was parsed.
    */
    lemma {:induction false} EndNoticed()
      requires Valid() && WellFormed(fetched) && bytesTillEof != -1
      ensures Decode(fetched).tail > 2 ==> bytesTillEof == 0
      ensures Decode(fetched).tail < 2 ==> bytesTillEof == 2
      ensures Decode(fetched).tail == 2 ==> (bytesTillEof == 0 <==> LastRest(rests) >= 2)
    {
      Said();
    }

    /** Delivers from the decoded buffer. */
    method Drain(len: nat) returns (ret: int, out: Bytes)
      requires Valid() && len > 0
      modifies this`decoded, this`delivered
      ensures Valid() && delivered == old(delivered) + out && out + decoded.Rest() == old(decoded.Rest())
      ensures |out| <= len && (|out| < len ==> decoded == NoBuffer)
      ensures ret == |out| || (ret == -1 && out == [])
    {
      var rest;
      ret, out, rest := CopyBuffer(decoded, len);
      Handed(delivered, out, rest.Rest());
      decoded := rest;
      delivered := delivered + out;
    }
  }

  lemma Handed(a: Bytes, b: Bytes, c: Bytes)
    ensures (a + b) + c == a + (b + c) && a + [] == a
  {}

  /** Past the last chunk the counter's exact value says nothing more. */
  lemma {:induction false} EofAdvances(till: nat, x: Bytes, e: seq<Bytes>, x': Bytes)
    requires till != 1 && Advances(till, 2, x, [], e, 0, 2, x')
    ensures Advances(till, 2, x, [], e, 0, 0, x')
  {
    forall u ensures Refines(till, 2, x + u, [], e, 0, 0, x' + u) {
      assert Future(u);
      assert Refines(till, 2, x + u, [], e, 0, 2, x' + u);
    }
  }

  lemma {:induction false} StaysPut(till: nat, eof: int, x: Bytes)
    requires till != 1
    ensures Advances(till, eof, x + [], [] + [], [], till, eof, x)
  {
    Stays(till, eof, x);
    var none: Bytes := [];
    assert x + none == x && none + none == none;
  }

  lemma {:induction false} BodyAdvances(till: nat, b: Bytes)
    requires till > 2 && |b| <= till - 2
    ensures Advances(till, -1, b, b, [], till - |b|, -1, [])
  {
    forall u ensures Refines(till, -1, b + u, b, [], till - |b|, -1, [] + u) {
      DirectStep(till, -1, b, u);
      assert [] + u == u;
    }
  }

  lemma {:induction false} SkipAdvances(till: nat, eof: int, r: Bytes)
    requires (till == 0 || till == 2) && |r| >= till
    ensures Advances(till, eof, r, [], [], 0, eof, r[till..])
  {
    forall u ensures Refines(till, eof, r + u, [], [], 0, eof, r[till..] + u) {
      SkipStep(till, eof, r, u);
    }
  }
}
