/**
Whole streams as section 3.6.1 of RFC 2616 spells them: what they mean, and that the reference
decoding, and with it the reader, takes them for what they mean whenever the headers end in step.
*/
module RfcStream {
  import opened CTypes
  import opened ChunkedFormat
  import opened ChunkGrammar
  import opened GrammarReading
  import opened HeaderScan
  import opened ChunkedReader

  datatype RfcChunk = RfcChunk(header: ChunkHeader, data: Bytes)

  /** Chunks that are not empty, the header of the last chunk, and what follows it: trailers and CRLF. */
  datatype Stream = Stream(chunks: seq<RfcChunk>, last: ChunkHeader, tail: Bytes)

  /** The header announces `n` bytes, and its end can be found. */
  ghost predicate Announces(h: ChunkHeader, n: nat) {
    ChunkLength(h.size) == Some(n) && AreExtensions(h.exts) && InStep(false, h.exts)
  }

  ghost predicate IsStream(s: Stream) {
    && (forall i :: 0 <= i < |s.chunks| ==> s.chunks[i].data != [] && Announces(s.chunks[i].header, |s.chunks[i].data|))
    && Announces(s.last, 0) && NotLF(s.tail)
  }

  function SpellChunks(cs: seq<RfcChunk>, end: Bytes): Bytes {
    if cs == [] then end
    else SpellHeader(cs[0].header) + (cs[0].data + (CRLF + SpellChunks(cs[1..], end)))
  }

  function SpellStream(s: Stream): Bytes { SpellChunks(s.chunks, SpellHeader(s.last) + s.tail) }

  function DataOf(cs: seq<RfcChunk>): Bytes { if cs == [] then [] else cs[0].data + DataOf(cs[1..]) }

  function ExtsOf(cs: seq<RfcChunk>): seq<Bytes> {
    if cs == [] then [] else [SpellAll(cs[0].header.exts)] + ExtsOf(cs[1..])
  }

  lemma {:induction false} HeaderTakenOff(h: ChunkHeader, n: nat, rest: Bytes)
    requires Announces(h, n)
    ensures var s := SpellHeader(h) + rest;
      s != [] && HexOf(s[0]) >= 0 && TakeHeader(s) == First(Some(n), SpellAll(h.exts), rest)
  {
    HeaderEndsExactly(h, rest);
    TakenExactly(h.size, SpellAll(h.exts), rest, SpellHeader(h) + rest, n);
    assert (SpellHeader(h) + rest)[0] == h.size[0];
  }

  lemma {:induction false} ChunksDecode(cs: seq<RfcChunk>, last: ChunkHeader, tail: Bytes)
    requires IsStream(Stream(cs, last, tail))
    ensures var s := SpellChunks(cs, SpellHeader(last) + tail);
      WellFormed(s) && Decode(s) == Message(DataOf(cs), ExtsOf(cs) + [SpellAll(last.exts)], |tail|, 0)
    decreases |cs|
  {
    var end := SpellHeader(last) + tail;
    if cs == [] {
      HeaderTakenOff(last, 0, tail);
      LastChunk(end, SpellAll(last.exts), tail);
    } else {
      var c, more := cs[0], SpellChunks(cs[1..], end);
      StreamTail(cs, last, tail);
      ChunksDecode(cs[1..], last, tail);
      HeaderTakenOff(c.header, |c.data|, c.data + (CRLF + more));
      WholeChunk(SpellChunks(cs, end), SpellAll(c.header.exts), c.data + (CRLF + more), c.data, more);
      Associate([SpellAll(c.header.exts)], ExtsOf(cs[1..]), [SpellAll(last.exts)]);
    }
  }

  lemma Associate<T>(a: seq<T>, b: seq<T>, c: seq<T>)
    ensures a + (b + c) == (a + b) + c
  {}

  lemma StreamTail(cs: seq<RfcChunk>, last: ChunkHeader, tail: Bytes)
    requires IsStream(Stream(cs, last, tail)) && cs != []
    ensures IsStream(Stream(cs[1..], last, tail)) && cs[0].data != [] && Announces(cs[0].header, |cs[0].data|)
  {
    var s, t := Stream(cs, last, tail), Stream(cs[1..], last, tail);
    assert forall i :: 0 <= i < |t.chunks| ==> t.chunks[i] == s.chunks[i + 1];
    assert s.chunks[0] == cs[0];
  }

  /** A stream of the grammar is well formed, and carries the data and the extensions of its chunks, in order. */
  lemma {:induction false} StreamDecodes(s: Stream)
    requires IsStream(s)
    ensures WellFormed(SpellStream(s))
    ensures Decode(SpellStream(s)) == Message(DataOf(s.chunks), ExtsOf(s.chunks) + [SpellAll(s.last.exts)], |s.tail|, 0)
  {
    ChunksDecode(s.chunks, s.last, s.tail);
  }

  // ---------------------------------------------------------------- what the reader makes of it

  ghost predicate Reading(s: Stream, r: Decoder)
    reads r
  {
    IsStream(s) && r.Valid() && r.fetched <= SpellStream(s)
  }

  /** All headers of the stream, the last chunk's included, and their extensions as they are spelled. */
  function HeadersOf(s: Stream): seq<Bytes> { ExtsOf(s.chunks) + [SpellAll(s.last.exts)] }

  lemma StreamLeft(s: Stream, r: Decoder) returns (m: Message)
    requires Reading(s, r)
    ensures Decode(SpellStream(s)) == Prepend(r.delivered + r.decoded.Rest(), r.headers, m)
    ensures r.bytesTillEof != -1 ==> m.data == [] == r.decoded.Rest() && m.exts == []
  {
    StreamDecodes(s);
    var u := SpellStream(s)[|r.fetched|..];
    assert r.fetched + u == SpellStream(s) && Future(u);
    m := Remaining(r.readBytesTillHeader, r.bytesTillEof, r.raw.Rest() + u);
  }

  lemma Associate3(a: Bytes, b: Bytes, c: Bytes)
    ensures (a + b) + c == a + (b + c) && a <= a + (b + c)
  {}

  /**
  However a stream of the grammar is cut up on its way, what the reader has delivered is the
  beginning of its data; and once the last chunk's header is read, all of it.
  */
  lemma {:induction false} StreamDelivered(s: Stream, r: Decoder)
    requires Reading(s, r)
    ensures r.delivered <= DataOf(s.chunks) && r.headers <= HeadersOf(s)
    ensures r.bytesTillEof != -1 ==> r.delivered == DataOf(s.chunks) && r.headers == HeadersOf(s)
  {
    StreamDecodes(s);
    var m := StreamLeft(s, r);
    Associate3(r.delivered, r.decoded.Rest(), m.data);
  }

  /** The extensions of the i-th header. */
  function ExtensionsAt(s: Stream, i: nat): seq<Extension>
    requires i <= |s.chunks|
  {
    if i < |s.chunks| then s.chunks[i].header.exts else s.last.exts
  }

  lemma {:induction false} ExtsAt(cs: seq<RfcChunk>, i: nat)
    requires i < |cs|
    ensures |ExtsOf(cs)| == |cs| && ExtsOf(cs)[i] == SpellAll(cs[i].header.exts)
    decreases |cs|
  {
    if i > 0 {
      ExtsAt(cs[1..], i - 1);
    } else if |cs| > 1 {
      ExtsAt(cs[1..], 0);
    }
  }

  lemma HeaderAt(s: Stream, i: nat)
    requires IsStream(s)
    ensures |HeadersOf(s)| == |s.chunks| + 1
    ensures i <= |s.chunks| ==> HeadersOf(s)[i] == SpellAll(ExtensionsAt(s, i)) && AreExtensions(ExtensionsAt(s, i))
  {
    if i < |s.chunks| {
      ExtsAt(s.chunks, i);
    } else if s.chunks != [] {
      ExtsAt(s.chunks, 0);
    }
  }

  /**
  The metadata the reader takes from the i-th header is what its extensions mean if and only if every
  one is readable where it stands, with what was in the buffer behind the header at that time.
  */
  lemma {:induction false} MetadataRead(s: Stream, r: Decoder, i: nat)
    requires Reading(s, r) && i < |r.headers|
    ensures i <= |s.chunks| && r.headers[i] == SpellAll(ExtensionsAt(s, i))
    ensures r.Scanned(i) == Meanings(ExtensionsAt(s, i)) <==>
      Readable(r.headers[i] + (CRLF + r.rests[i]), 0, ExtensionsAt(s, i))
  {
    StreamDelivered(s, r);
    HeaderAt(s, i);
    var ext, mem := r.headers[i], r.headers[i] + (CRLF + r.rests[i]);
    assert r.headers[i] == HeadersOf(s)[i];
    assert mem[0..0 + |ext|] == ext;
    ReadExactly(mem, 0, ExtensionsAt(s, i), |ext|);
  }

  /** Every value is a quoted string that is read right, but that the last may be missing. */
  ghost predicate AllQuoted(es: seq<Extension>) {
    forall i :: 0 <= i < |es| ==>
      match es[i].value
      case NoValue => i == |es| - 1
      case Token(_) => false
      case Quoted(items) => Mode(items, 1) == 1 && Pair(BACKSLASH) !in items
  }

  lemma {:induction false} QuotedReadable(mem: Bytes, pos: nat, es: seq<Extension>)
    requires AllQuoted(es)
    ensures Readable(mem, pos, es)
    decreases |es|
  {
    if es != [] {
      assert forall i :: 0 <= i < |es[1..]| ==> es[1..][i] == es[i + 1];
      QuotedReadable(mem, pos + |Spell(es[0])|, es[1..]);
    }
  }

  /** Such values are read as they are meant however the stream was cut up. */
  lemma {:induction false} QuotedMetadataRead(s: Stream, r: Decoder, i: nat)
    requires Reading(s, r) && i < |r.headers|
    ensures i <= |s.chunks| && (AllQuoted(ExtensionsAt(s, i)) ==> r.Scanned(i) == Meanings(ExtensionsAt(s, i)))
  {
    MetadataRead(s, r, i);
    if AllQuoted(ExtensionsAt(s, i)) {
      QuotedReadable(r.headers[i] + (CRLF + r.rests[i]), 0, ExtensionsAt(s, i));
    }
  }
}
