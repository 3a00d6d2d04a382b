/** Concrete runs at which the chunked coding does not do what it should. */
module ChunkedExamples {
  import opened CTypes
  import opened ChunkedFormat
  import opened Extensions
  import opened HeaderScan
  import opened ChunkedReader
  import opened ChunkedWriter
  import opened ChunkedSession

  const A: Byte := 97
  const B: Byte := 98

  // ---------------------------------------------------------------- a chunk that is held back

  /** A pipe that takes all it is offered. */
  function All(b: Bytes): int { |b| }

  lemma OneByteChunk(b: Byte, rest: Bytes)
    ensures var c := Chunk([], [b], false);
      && Settled(Print(c.metas)) && Encoded(c) == [49] + CRLF + ([b] + CRLF)
      && Parsed(Skipped(START_VIEW.(raw := Encoded(c) + rest))) == View(rest, [b], -1, 0, [[]], [[b] + CRLF + rest])
  {
    var c := Chunk([], [b], false);
    assert HeaderText(c) == [49] && CRLF + [] == CRLF;
    EncodedHeader(c, [b] + CRLF + rest);
    var x := Encoded(c) + rest;
    assert x == HeaderText(c) + CRLF + ([b] + CRLF + rest) && x[0..] == x;
    assert TakeHeader(x) == First(Some(1), [], [b] + CRLF + rest);
    assert Drop([b] + CRLF + rest, 3) == rest && Take([b] + CRLF + rest, 1) == [b];
  }

  /** A session in which everything was taken at once: all that was encoded is in the pipe. */
  ghost predicate Sent(s: Session, cs: seq<Chunk>)
    reads s, s.encoder, s.decoder
  {
    && s.Valid() && s.encoder.encoded == NoBuffer && s.encoder.metaWrite == [] && s.encoder.chunks == cs
    && s.decoder.fetched == [] && s.decoder.delivered == []
    && s.decoder.raw == NoBuffer && s.decoder.decoded == NoBuffer
    && s.decoder.bytesTillEof == -1 && s.decoder.readBytesTillHeader == 0
    && s.decoder.headers == [] && s.decoder.rests == []
  }

  method Send(s: Session, b: Byte, ghost cs: seq<Chunk>)
    requires Sent(s, cs)
    modifies s, s.encoder
    ensures Sent(s, cs + [Chunk([], [b], false)]) && s.accepted == old(s.accepted) + [b]
  {
    ghost var c := Chunk([], [b], false);
    s.Write(Some([b]), All, All);
    assert s.encoder.encoded.Rest() == Drop(Encoded(c), |Encoded(c)|) == [];
  }

  lemma SentPipe(s: Session, cs: seq<Chunk>)
    requires Sent(s, cs)
    ensures s.pipe == Wire(cs)
  {
    assert s.encoder.taken + [] == s.encoder.taken && [] + s.pipe == s.pipe;
  }

  lemma Two(a: Chunk, b: Chunk, cs: seq<Chunk>)
    requires cs == [] + [a] + [b]
    ensures Wire(cs) == Encoded(a) + Encoded(b) && cs[0] == a && cs[1] == b
  {
    var last: seq<Chunk> := [b];
    assert cs[1..] == last && Wire(last[1..]) == [] && Encoded(b) + [] == Encoded(b);
    assert Wire(last) == Encoded(b);
  }

  /** All twelve bytes are fetched at once, and the first chunk is taken off. */
  lemma FirstRead(wire: Bytes, rest: Bytes, out: Bytes, v: View)
    requires wire == Encoded(Chunk([], [A], false)) + rest
    requires v.(decoded := out + v.decoded) == ReadStep(START_VIEW, wire) && (|out| == 10 || v.decoded == [])
    ensures out == [A] && v.raw == rest && v.decoded == []
  {
    OneByteChunk(A, rest);
    assert [] + wire == wire && out + [] == out && [] + [A] == [A];
    assert |out + v.decoded| == 1 ==> |out| <= 1;
    assert wire != [] && Stepped(START_VIEW, wire) == View(rest, [A], -1, 0, [[]], [[A] + CRLF + rest]);
  }

  lemma WholePipe(pipe: Bytes)
    requires |pipe| <= 1024
    ensures Given(Tap(pipe, 1024), 1024) == pipe
  {
    assert Tap(pipe, 1024).read(1024) == Cut(pipe, 1024, 1024);
  }

  lemma Settles(cs: seq<Chunk>, a: Chunk, b: Chunk)
    requires cs == [] + [a] + [b] && a.metas == [] && b.metas == []
    ensures Findable(cs)
  {}

  method SendTwo(ghost a: Chunk, ghost b: Chunk) returns (s: Session)
    requires a == Chunk([], [A], false) && b == Chunk([], [B], false)
    ensures fresh(s) && fresh(s.encoder) && fresh(s.decoder)
    ensures Sent(s, [] + [a] + [b]) && s.accepted == [A, B]
  {
    s := new Session();
    Send(s, A, []);
    Send(s, B, [] + [a]);
  }

  /** Two chunks of one byte that arrive together: the first is delivered, the second is not. */
  method HeldBack() returns (s: Session)
    ensures s.Valid() && s.Drained() && Findable(s.encoder.chunks) && NoneEmpty(s.encoder.chunks)
    ensures s.decoder.delivered == [A] && s.accepted == [A, B]
  {
    ghost var a, b := Chunk([], [A], false), Chunk([], [B], false);
    s := SendTwo(a, b);
    ghost var cs := s.encoder.chunks;
    Two(a, b, cs);
    Settles(cs, a, b);
    SentPipe(s, cs);
    OneByteChunk(A, []);
    OneByteChunk(B, []);
    WireDecodes(cs);
    FinishRead(s, a, b, s.pipe);
  }

  method FinishRead(s: Session, ghost a: Chunk, ghost b: Chunk, ghost wire: Bytes)
    requires Sent(s, [] + [a] + [b]) && a == Chunk([], [A], false) && s.pipe == wire == Encoded(a) + Encoded(b)
    requires WellFormed(wire) && |wire| <= 1024
    modifies s, s.decoder
    ensures s.Valid() && s.Drained() && s.decoder.delivered == [A] && s.accepted == old(s.accepted)
  {
    WholePipe(wire);
    ghost var v, got := s.decoder.AsView(), Fetch(s.decoder.Now(), 10, Tap(s.pipe, 1024));
    assert v == START_VIEW && got == wire;
    var out := s.Read(10, 1024);
    NothingLeft(wire, s.pipe, s.decoder.fetched);
    assert s.decoder.fetched == wire;
    FirstRead(wire, Encoded(b), out, s.decoder.AsView());
  }

  lemma NothingLeft(wire: Bytes, pipe: Bytes, fetched: Bytes)
    requires wire == wire + pipe
    ensures pipe == [] && fetched + pipe == fetched
  {
    assert |pipe| == 0;
  }

  method ReadNothing(s: Session, len: nat, cut: nat)
    requires s.Valid() && s.Drained()
    modifies s, s.decoder
    ensures s.Valid() && s.Drained() && s.decoder.delivered == old(s.decoder.delivered) && s.accepted == old(s.accepted)
  {
    ghost var v := s.decoder.AsView();
    var out := s.Read(len, cut);
    EmptyRead(out, v, s.decoder.AsView());
  }

  /** Whatever is read from then on, nothing comes. */
  method KeepReading(s: Session, requests: seq<(nat, nat)>)
    requires s.Valid() && s.Drained()
    modifies s, s.decoder
    ensures s.Valid() && s.Drained() && s.decoder.delivered == old(s.decoder.delivered) && s.accepted == old(s.accepted)
  {
    for n := 0 to |requests|
      invariant s.Valid() && s.Drained()
      invariant s.decoder.delivered == old(s.decoder.delivered) && s.accepted == old(s.accepted)
    {
      ReadNothing(s, requests[n].0, requests[n].1);
    }
  }

  lemma EmptyRead(out: Bytes, v: View, v': View)
    requires v.decoded == [] && v'.(decoded := out + v'.decoded) == ReadStep(v, [])
    ensures out == [] && v'.decoded == []
  {
    assert |out + v'.decoded| == 0;
  }

  // ---------------------------------------------------------------- an end that goes unnoticed

  /** A callback that gives these bytes, if it is asked for that many. */
  function Gives(bytes: Bytes): Callback
    requires bytes != []
  {
    Callback((max: nat) => if |bytes| <= max then Got(bytes) else Refused(0))
  }

  lemma LastHeader(rest: Bytes)
    ensures TakeHeader([48] + CRLF + rest) == First(Some(0), [], rest)
  {
    var c := Chunk([], [], true);
    assert HeaderText(c) == [48] && Print(c.metas) == [];
    EncodedHeader(c, rest);
  }

  lemma FirstStep(x: Bytes)
    requires x != []
    ensures Stepped(START_VIEW, x) == Parsed(START_VIEW.(raw := x))
  {
    assert [] + x == x && x[0..] == x;
  }

  lemma Alone<T>(x: T)
    ensures [] + [x] == [x]
  {}

  lemma LastParsed(x: Bytes, rest: Bytes)
    requires x != [] && TakeHeader(x) == First(Some(0), [], rest)
    ensures Stepped(START_VIEW, x) == AfterBody(rest, 0, [[]], [rest])
  {
    FirstStep(x);
    Alone<Bytes>([]);
    Alone(rest);
  }

  lemma LastHeaderParsed(rest: Bytes)
    ensures Stepped(START_VIEW, [48] + CRLF + rest) == AfterBody(rest, 0, [[]], [rest])
    ensures NotLF(rest) ==> WellFormed([48] + CRLF + rest) && Decode([48] + CRLF + rest).tail == |rest|
  {
    var x := [48] + CRLF + rest;
    LastHeader(rest);
    LastParsed(x, rest);
    assert x[0] == 48;
    if NotLF(rest) { LastChunk(x, [], rest); }
  }

  /** The end of the stream in one piece is noticed. */
  method NoticedAtOnce() returns (r: Decoder)
    ensures r.Valid() && r.fetched == [48] + CRLF + CRLF && r.bytesTillEof == 0
  {
    r := new Decoder();
    LastHeaderParsed(CRLF);
    var cb := Gives([48] + CRLF + CRLF);
    var _, out := r.Read(1, cb);
    assert [] + ([48] + CRLF + CRLF) == [48] + CRLF + CRLF;
  }

  /** The same bytes in two pieces, cut behind the header: the terminator is complete, the end is not noticed. */
  method Unnoticed() returns (r: Decoder)
    ensures r.Valid() && r.fetched == [48] + CRLF + CRLF && r.bytesTillEof == 2 && Decode(r.fetched).tail == 2
  {
    r := HeaderAlone();
    LastHeaderParsed(CRLF);
    assert [] + CRLF == CRLF;
    var _, more := r.Read(1, Gives(CRLF));
  }

  method HeaderAlone() returns (r: Decoder)
    ensures fresh(r) && r.Valid() && r.fetched == [48] + CRLF && r.decoded.Rest() == [] == r.raw.Rest()
    ensures r.bytesTillEof == 2 && r.readBytesTillHeader == 2
  {
    r := new Decoder();
    LastHeaderParsed([]);
    var zero := [48] + CRLF;
    assert zero + [] == zero && [] + zero == zero;
    var _, out := r.Read(1, Gives(zero));
    Alone<Bytes>([]);
  }

  // ---------------------------------------------------------------- a line end at the very start

  lemma BadRefused(cb: Callback, x: Bytes)
    requires x == [120] + CRLF && cb == Gives(x)
    ensures Given(cb, 1024) == x && State(NoBuffer, NoBuffer, -1, 0).Errs(cb, 1)
  {
    var s := State(NoBuffer, NoBuffer, -1, 0);
    assert x[0] == 120 && x[1] == 13 && x[2] == 10 && x[0..] == x;
    assert Scan(x, 2, 0, true, -1) == Header(1, 2) && Scan(x, 1, 0, false, -1) == Header(1, 2);
    assert x[..1] == [120] && HexOf(x[..1][0]) == -1;
    assert s.Filled(x).raw == Buffer(x, 0) && s.Filled(x).Refused();
    assert s.Rejects(x);
  }

  /** A header whose length is no number: the read fails. */
  method BadLength() returns (r: Decoder, ret: int)
    ensures r.Valid() && r.fetched == [120, 13, 10] && ret == -1 && !WellFormed(r.fetched)
  {
    r := new Decoder();
    var x := [120] + CRLF;
    BadRefused(Gives(x), x);
    assert [] + x == x == [120, 13, 10];
    var out;
    ret, out := r.Read(1, Gives(x));
  }

  lemma BareRefused(cb: Callback)
    requires cb == Gives([LF])
    ensures Given(cb, 1024) == [LF] && State(NoBuffer, NoBuffer, -1, 0).Errs(cb, 1)
  {
    var s := State(NoBuffer, NoBuffer, -1, 0);
    assert s.Filled([LF]).raw == Buffer([LF], 0) && s.Filled([LF]).Refused();
    assert s.Rejects([LF]);
  }

  /** The first byte fetched is an LF: the scan takes it for the end of a header whose CR is in front of the buffer. */
  method BareLineEnd() returns (r: Decoder, ret: int)
    ensures r.Valid() && r.fetched == [LF] && ret == -1 && !WellFormed(r.fetched)
  {
    r := new Decoder();
    var cb := Gives([LF]);
    BareRefused(cb);
    var nothing: Bytes := [];
    assert nothing + [LF] == [LF];
    var out;
    ret, out := r.Read(1, cb);
  }
}
