/**
The encoder: one chunk per accepted write, kept in a pending buffer that short writes flush, and
the end-to-end theorem that ties it to the decoder.
*/
module ChunkedWriter {
  import opened CTypes
  import opened ChunkedFormat
  import opened Extensions
  import opened HeaderScan
  import opened ChunkedReader

  // ---------------------------------------------------------------- lengths in hexadecimal

  /** `%lx`: lower-case digits, no leading zeros. */
  function HexPrint(n: nat): Bytes {
    if n < 16 then [HexDigit(n)] else HexPrint(n / 16) + [HexDigit(n % 16)]
  }

  lemma {:induction false} HexRoundTrip(n: nat)
    ensures IsHex(HexPrint(n)) && HexValue(HexPrint(n)) == n
  {
    if n >= 16 {
      HexRoundTrip(n / 16);
      var h := HexPrint(n);
      assert h[..|h| - 1] == HexPrint(n / 16) && h[|h| - 1] == HexDigit(n % 16);
    } else {
      assert HexPrint(n)[..0] == [];
    }
  }

  predicate LowerHex(b: Byte) { 48 <= b <= 57 || 97 <= b <= 102 }

  /** Lower-case digits, and a zero in front only if that is all. */
  lemma {:induction false} HexPrintForm(n: nat)
    ensures HexPrint(n) != [] && forall i :: 0 <= i < |HexPrint(n)| ==> LowerHex(HexPrint(n)[i])
    ensures n > 0 ==> HexPrint(n)[0] != 48
    ensures n == 0 ==> HexPrint(n) == [48]
  {
    if n >= 16 { HexPrintForm(n / 16); }
  }

  // ---------------------------------------------------------------- chunks

  /** An accepted write: its metadata, its bytes, and whether it was a flush (no buffer given). */
  datatype Chunk = Chunk(metas: seq<Meta>, data: Bytes, flush: bool)

  function HeaderText(c: Chunk): Bytes { HexPrint(|c.data|) + Print(c.metas) }

  /** A flush is the chunk of length zero with one CRLF more than the coding asks for. */
  function Encoded(c: Chunk): Bytes {
    HeaderText(c) + CRLF + (c.data + (CRLF + (if c.flush then CRLF else [])))
  }

  function Wire(cs: seq<Chunk>): Bytes {
    if cs == [] then [] else Encoded(cs[0]) + Wire(cs[1..])
  }

  function Data(cs: seq<Chunk>): Bytes {
    if cs == [] then [] else cs[0].data + Data(cs[1..])
  }

  /** Chunks of a writer: no more than a chunk can hold, and nothing in a flush. */
  ghost predicate Sized(cs: seq<Chunk>) {
    forall i :: 0 <= i < |cs| ==> |cs[i].data| <= MAX_CHUNK && (cs[i].flush ==> cs[i].data == [])
  }

  /** The reader finds the end of every header: the exact condition, see `EncodedHeader`. */
  ghost predicate Findable(cs: seq<Chunk>) { forall i :: 0 <= i < |cs| ==> Settled(Print(cs[i].metas)) }

  // ---------------------------------------------------------------- the header scan on printed headers

  lemma {:induction false} LengthReadsBack(n: nat)
    requires n <= MAX_CHUNK
    ensures ChunkLength(HexPrint(n)) == Some(n)
  {
    HexRoundTrip(n);
  }

  lemma {:induction false} PrintStarts(ms: seq<Meta>)
    ensures Print(ms) == [] || Print(ms)[0] == SEMICOLON
  {
    if ms != [] { PrintStarts(ms[1..]); }
  }

  /**
  The header of an encoded chunk is taken off with its length and its extensions if and only if the
  scan has settled behind the extensions.
  */
  lemma {:induction false} EncodedHeader(c: Chunk, rest: Bytes)
    requires |c.data| <= MAX_CHUNK
    ensures TakeHeader(HeaderText(c) + CRLF + rest) == First(Some(|c.data|), Print(c.metas), rest) <==>
      Settled(Print(c.metas))
  {
    var hex, p := HexPrint(|c.data|), Print(c.metas);
    var s := hex + p + CRLF + rest;
    HexRoundTrip(|c.data|);
    PrintStarts(c.metas);
    HeaderEnds(hex, p, rest, s);
    LengthReadsBack(|c.data|);
    TakenExactly(hex, p, rest, s, |c.data|);
  }

  /** The printed text of a key passes by. */
  ghost predicate SafeKey(k: Bytes) { forall i :: 0 <= i < |k| ==> k[i] != QUOTE && k[i] != CR }

  /** Behind the last quote of the value, or in all of it if there is none, stands no backslash. */
  ghost predicate SafeValue(v: Bytes) {
    forall i :: 0 <= i < |v| && v[i] == BACKSLASH ==> exists j :: i < j < |v| && v[j] == QUOTE
  }

  function QuoteAfter(v: Bytes, quote: nat): nat
    decreases |v|
  {
    if v == [] then quote
    else QuoteAfter(v[1..], if v[0] == QUOTE then 1 else if v[0] == BACKSLASH then 2 else quote)
  }

  lemma {:induction false} WalkEscaped(v: Bytes, quote: nat)
    requires 1 <= quote <= 2
    ensures Walk(Lex(quote, false), Escape(v)) == Lex(QuoteAfter(v, quote), false)
    decreases |v|
  {
    if v != [] {
      var e := Escape(v[1..]);
      if v[0] == QUOTE {
        assert ([BACKSLASH, QUOTE] + e)[1..][1..] == e;
        WalkEscaped(v[1..], 1);
      } else {
        assert ([v[0]] + e)[1..] == e;
        WalkEscaped(v[1..], if v[0] == BACKSLASH then 2 else quote);
      }
    }
  }

  lemma {:induction false} SafeValueIsQuoteAfter(v: Bytes, quote: nat)
    requires 1 <= quote <= 2
    ensures QuoteAfter(v, quote) == 1 <==> SafeValue(v) && (quote == 1 || exists j :: 0 <= j < |v| && v[j] == QUOTE)
    decreases |v|
  {
    if v != [] {
      var t := v[1..];
      SafeValueIsQuoteAfter(t, if v[0] == QUOTE then 1 else if v[0] == BACKSLASH then 2 else quote);
      SafeValueStep(v, t);
    }
  }

  lemma SafeValueStep(v: Bytes, t: Bytes)
    requires v != [] && t == v[1..]
    ensures (exists j :: 0 <= j < |v| && v[j] == QUOTE) <==> v[0] == QUOTE || exists j :: 0 <= j < |t| && t[j] == QUOTE
    ensures SafeValue(v) <==> SafeValue(t) && (v[0] == BACKSLASH ==> exists j :: 0 <= j < |t| && t[j] == QUOTE)
  {
    assert forall i :: 0 <= i < |t| ==> t[i] == v[i + 1];
    assert forall i :: 1 <= i < |v| ==> v[i] == t[i - 1];
    if SafeValue(v) {
      forall i | 0 <= i < |t| && t[i] == BACKSLASH ensures exists j :: i < j < |t| && t[j] == QUOTE {
        assert v[i + 1] == BACKSLASH;
        var j :| i + 1 < j < |v| && v[j] == QUOTE;
        assert t[j - 1] == QUOTE;
      }
    }
    if SafeValue(t) && (v[0] == BACKSLASH ==> exists j :: 0 <= j < |t| && t[j] == QUOTE) {
      forall i | 0 <= i < |v| && v[i] == BACKSLASH ensures exists j :: i < j < |v| && v[j] == QUOTE {
        if i > 0 {
          assert t[i - 1] == BACKSLASH;
          var j :| i - 1 < j < |t| && t[j] == QUOTE;
          assert v[j + 1] == QUOTE;
        } else {
          var j :| 0 <= j < |t| && t[j] == QUOTE;
          assert v[j + 1] == QUOTE;
        }
      }
    }
  }

  lemma {:induction false} WalkKey(k: Bytes)
    requires SafeKey(k)
    ensures Walk(START, k) == START
    decreases |k|
  {
    if k != [] {
      assert SafeKey(k[1..]) by { assert forall i :: 0 <= i < |k[1..]| ==> k[1..][i] == k[i + 1]; }
      WalkKey(k[1..]);
    }
  }

  /** A printed value is passed over if and only if it is safe. */
  lemma {:induction false} WalkPrinted(v: Bytes)
    ensures Walk(START, PrintValue(v)) == START <==> SafeValue(v)
  {
    if v != [] {
      WalkParts(START, [EQUALS, QUOTE] + Escape(v), [QUOTE]);
      WalkParts(START, [EQUALS, QUOTE], Escape(v));
      assert [EQUALS, QUOTE][1..] == [QUOTE] && [QUOTE][1..] == [];
      WalkEscaped(v, 1);
      SafeValueIsQuoteAfter(v, 1);
    }
  }

  /** The header scan settles behind metadata whose keys and values are safe. */
  lemma {:induction false} SafeSettles(ms: seq<Meta>)
    requires forall i :: 0 <= i < |ms| ==> (ms[i].key.Some? ==> SafeKey(ms[i].key.value) && SafeValue(ms[i].Text()))
    ensures Walk(START, Print(ms)) == START && Settled(Print(ms))
    decreases |ms|
  {
    if ms != [] {
      WalkParts(START, PrintOne(ms[0]), Print(ms[1..]));
      WalkOne(ms[0]);
      assert forall i :: 0 <= i < |ms[1..]| ==> ms[1..][i] == ms[i + 1];
      SafeSettles(ms[1..]);
    }
  }

  lemma {:induction false} WalkOne(m: Meta)
    requires m.key.Some? ==> SafeKey(m.key.value) && SafeValue(m.Text())
    ensures Walk(START, PrintOne(m)) == START
  {
    if m.key.Some? {
      var k, v := m.key.value, PrintValue(m.Text());
      assert PrintOne(m) == ([SEMICOLON] + k) + v;
      WalkParts(START, [SEMICOLON] + k, v);
      assert ([SEMICOLON] + k)[1..] == k;
      WalkKey(k);
      WalkPrinted(m.Text());
    }
  }

  // ---------------------------------------------------------------- decoding what was encoded

  function EndOf(c: Chunk): Bytes { CRLF + (if c.flush then CRLF else []) }

  /** What a run of chunks says, up to and including the first empty one. */
  ghost function Told(cs: seq<Chunk>): Message {
    if cs == [] then Message([], [], -1, 0)
    else if cs[0].data == [] then Message([], [Print(cs[0].metas)], |EndOf(cs[0]) + Wire(cs[1..])|, 0)
    else Prepend(cs[0].data, [Print(cs[0].metas)], Told(cs[1..]))
  }

  /** The encoded chunks are a well-formed stream that carries exactly the bytes accepted, in order. */
  lemma {:induction false} WireDecodes(cs: seq<Chunk>)
    requires Sized(cs) && Findable(cs)
    ensures WellFormed(Wire(cs)) && Decode(Wire(cs)) == Told(cs)
    decreases |cs|
  {
    if cs == [] {
      assert FindHeader([]) == NoHeader;
    } else {
      assert Sized(cs[1..]) && Findable(cs[1..]) by {
        assert forall i :: 0 <= i < |cs[1..]| ==> cs[1..][i] == cs[i + 1];
      }
      WireDecodes(cs[1..]);
      WireFirst(cs);
      ChunkDecodes(Wire(cs), cs[0], Wire(cs[1..]));
    }
  }

  lemma {:induction false} ChunkDecodes(s: Bytes, c: Chunk, more: Bytes)
    requires Settled(Print(c.metas)) && |c.data| <= MAX_CHUNK && (c.flush ==> c.data == []) && WellFormed(more)
    requires s == HeaderText(c) + CRLF + (c.data + (EndOf(c) + more))
    ensures WellFormed(s)
    ensures Decode(s) == if c.data == [] then Message([], [Print(c.metas)], |EndOf(c) + more|, 0)
                         else Prepend(c.data, [Print(c.metas)], Decode(more))
  {
    var rest := c.data + (EndOf(c) + more);
    EncodedHeader(c, rest);
    FirstIsDigit(s, c, rest);
    if c.data == [] {
      assert rest == EndOf(c) + more;
      LastChunk(s, Print(c.metas), rest);
    } else {
      assert EndOf(c) == CRLF;
      WholeChunk(s, Print(c.metas), rest, c.data, more);
    }
  }

  lemma WireFirst(cs: seq<Chunk>)
    requires cs != []
    ensures Wire(cs) == HeaderText(cs[0]) + CRLF + (cs[0].data + (EndOf(cs[0]) + Wire(cs[1..])))
  {}

  lemma {:induction false} FirstIsDigit(s: Bytes, c: Chunk, rest: Bytes)
    requires s == HeaderText(c) + CRLF + rest
    ensures s != [] && HexOf(s[0]) >= 0
  {
    HexRoundTrip(|c.data|);
    assert s[0] == HexPrint(|c.data|)[0];
  }

  lemma {:induction false} ToldIsPrefix(cs: seq<Chunk>)
    ensures Told(cs).data <= Data(cs)
  {
    if cs != [] { ToldIsPrefix(cs[1..]); }
  }

  lemma {:induction false} WireAppend(cs: seq<Chunk>, c: Chunk)
    ensures Wire(cs + [c]) == Wire(cs) + Encoded(c)
  {
    if cs == [] {
      assert cs + [c] == [c] && [c][1..] == [];
      assert Encoded(c) + [] == Encoded(c) && Wire(cs) + Encoded(c) == Encoded(c);
    } else {
      assert (cs + [c])[1..] == cs[1..] + [c];
      WireAppend(cs[1..], c);
      var a, b, d := Encoded(cs[0]), Wire(cs[1..]), Encoded(c);
      assert a + (b + d) == (a + b) + d;
    }
  }

  lemma {:induction false} MetasAppend(cs: seq<Chunk>, c: Chunk)
    ensures AllMetas(cs + [c]) == AllMetas(cs) + c.metas
  {
    if cs == [] {
      assert cs + [c] == [c] && [c][1..] == [];
    } else {
      assert (cs + [c])[1..] == cs[1..] + [c];
      MetasAppend(cs[1..], c);
    }
  }

  lemma {:induction false} DataAppend(cs: seq<Chunk>, c: Chunk)
    ensures Data(cs + [c]) == Data(cs) + c.data
  {
    if cs == [] {
      assert cs + [c] == [c] && [c][1..] == [];
    } else {
      assert (cs + [c])[1..] == cs[1..] + [c];
      DataAppend(cs[1..], c);
    }
  }

  /** The metadata of a run of chunks, in order. */
  function AllMetas(cs: seq<Chunk>): seq<Meta> {
    if cs == [] then [] else cs[0].metas + AllMetas(cs[1..])
  }

  // ---------------------------------------------------------------- the encoder

  /** Keys and values as C strings. */
  ghost predicate CStrings(ms: seq<Meta>) {
    forall i :: 0 <= i < |ms| ==> (ms[i].key.Some? ==> NulFree(ms[i].key.value)) && NulFree(ms[i].Text())
  }

  lemma {:induction false} EscapeNulFree(v: Bytes)
    requires NulFree(v)
    ensures NulFree(Escape(v))
  {
    if v != [] {
      assert NulFree(v[1..]) by { assert forall i :: 0 <= i < |v[1..]| ==> v[1..][i] == v[i + 1]; }
      EscapeNulFree(v[1..]);
    }
  }

  lemma {:induction false} PrintNulFree(ms: seq<Meta>)
    requires CStrings(ms)
    ensures NulFree(Print(ms))
  {
    if ms != [] {
      EscapeNulFree(ms[0].Text());
      assert NulFree(PrintOne(ms[0]));
      assert CStrings(ms[1..]) by { assert forall i :: 0 <= i < |ms[1..]| ==> ms[1..][i] == ms[i + 1]; }
      PrintNulFree(ms[1..]);
    }
  }

  /** The C string in a buffer: what stands before its first NUL. */
  method StringIn(buf: array<Byte>, ghost p: nat) returns (s: Bytes)
    requires p < buf.Length && buf[p] == 0 && NulFree(buf[..p])
    ensures s == buf[..p]
  {
    assert forall i :: 0 <= i < p ==> buf[i] == buf[..p][i];
    var n := 0;
    while buf[n] != 0
      invariant n <= p
      decreases p - n
    {
      n := n + 1;
    }
    s := buf[..n];
  }

  /** A write callback is given bytes and says how many it took, or none (0) or failure (negative). */
  ghost predicate LegalWriter(cb: Bytes -> int) {
    forall b: Bytes :: cb(b) <= |b|
  }

  /** How much of what is pending a callback takes; it is not asked when there is nothing. */
  function Accepts(cb: Bytes -> int, pending: Bytes): nat {
    if pending == [] || cb(pending) < 0 then 0 else cb(pending)
  }

  const MAX_CHUNK: nat := 1048576

  /** What of the caller's buffer one chunk takes; a missing buffer asks for a flush. */
  function Chunked(buf: Option<Bytes>): (data: Bytes)
    ensures buf.Some? && |buf.value| <= 1048576 ==> data == buf.value
    ensures buf.Some? && |buf.value| > 1048576 ==> data == buf.value[..1048576]
  {
    if buf.None? then [] else Take(buf.value, MAX_CHUNK)
  }

  /** The bytes of one chunk: length, extensions, CRLF, data, CRLF, and CRLF again for a flush. */
  method EncodeChunk(metas: seq<Meta>, data: Bytes, flush: bool) returns (bytes: Bytes)
    requires CStrings(metas)
    ensures bytes == Encoded(Chunk(metas, data, flush)) && bytes != []
  {
    var extensions := [];
    if metas != [] {
      var text, p := WriteExtensions(metas);
      PrintNulFree(metas);
      extensions := StringIn(text, p);
    }
    var header := HexPrint(|data|) + extensions + CRLF;
    bytes := header + data + (if flush then CRLF + CRLF else CRLF);
    assert flush || CRLF + [] == CRLF;
    assert bytes == header + (data + (if flush then CRLF + CRLF else CRLF));
  }

  /**
  Conservation: what was taken and what is pending are the encodings of the accepted writes, and
  every piece of metadata handed over is in one chunk, or still waiting.
  */
  ghost predicate Conserved(taken: Bytes, pending: Bytes, chunks: seq<Chunk>, metas: seq<Meta>, appended: seq<Meta>) {
    && taken + pending == Wire(chunks)
    && AllMetas(chunks) + metas == appended && CStrings(metas)
    && Sized(chunks)
  }

  lemma CStringsAppend(a: seq<Meta>, b: seq<Meta>)
    requires CStrings(a) && CStrings(b)
    ensures CStrings(a + b)
  {}

  lemma ConservedMetas(taken: Bytes, pending: Bytes, chunks: seq<Chunk>, metas: seq<Meta>, appended: seq<Meta>,
                       ms: seq<Meta>)
    requires Conserved(taken, pending, chunks, metas, appended) && CStrings(ms)
    ensures Conserved(taken, pending, chunks, metas + ms, appended + ms)
  {
    CStringsAppend(metas, ms);
    Associate(AllMetas(chunks), metas, ms);
  }

  lemma Associate<T>(a: seq<T>, b: seq<T>, c: seq<T>)
    ensures (a + b) + c == a + (b + c)
  {}

  lemma ConservedFlush(taken: Bytes, pending: Bytes, chunks: seq<Chunk>, metas: seq<Meta>, appended: seq<Meta>, n: nat)
    requires Conserved(taken, pending, chunks, metas, appended) && n <= |pending|
    ensures Conserved(taken + pending[..n], pending[n..], chunks, metas, appended)
  {
    var a, b := pending[..n], pending[n..];
    assert pending == a + b && taken + (a + b) == (taken + a) + b;
  }

  lemma ConservedAccept(taken: Bytes, chunks: seq<Chunk>, c: Chunk, appended: seq<Meta>)
    requires Conserved(taken, [], chunks, c.metas, appended)
    requires |c.data| <= MAX_CHUNK && (c.flush ==> c.data == [])
    ensures Conserved(taken, Encoded(c), chunks + [c], [], appended)
  {
    WireAppend(chunks, c);
    MetasAppend(chunks, c);
    assert taken + [] == taken && appended + [] == appended;
  }

  class Encoder {
    var encoded: Buffer
    var metaWrite: seq<Meta>

    /** All bytes the callback has taken, all writes accepted, all metadata handed over so far. */
    ghost var taken: Bytes
    ghost var chunks: seq<Chunk>
    ghost var appended: seq<Meta>

    ghost predicate Valid()
      reads this
    {
      && encoded.Valid() && (encoded.Buffer? ==> encoded.Rest() != [])
      && Conserved(taken, encoded.Rest(), chunks, metaWrite, appended)
    }

    constructor ()
      ensures Valid() && taken == [] && chunks == [] && appended == [] && encoded == NoBuffer && metaWrite == []
    {
      encoded, metaWrite := NoBuffer, [];
      taken, chunks, appended := [], [], [];
    }

    /** `httpp_encoding_append_meta` */
    method AppendMeta(ms: seq<Meta>)
      requires Valid() && CStrings(ms)
      modifies this`metaWrite, this`appended
      ensures Valid() && metaWrite == old(metaWrite) + ms && appended == old(appended) + ms
    {
      ConservedMetas(taken, encoded.Rest(), chunks, metaWrite, appended, ms);
      metaWrite := metaWrite + ms;
      appended := appended + ms;
    }

    /** `httpp_encoding_pending` */
    method Pending() returns (n: nat)
      requires Valid()
      ensures n == |encoded.Rest()|
    {
      n := if encoded.NoBuffer? then 0 else |encoded.data| - encoded.offset;
    }

    /** `__flush_output`: the callback takes a leading part of what is pending, `sent`. */
    method Flush(cb: Bytes -> int) returns (sent: Bytes)
      requires Valid() && LegalWriter(cb)
      modifies this`encoded, this`taken
      ensures Valid() && taken == old(taken) + sent && |sent| == Accepts(cb, old(encoded.Rest()))
      ensures encoded == NoBuffer <==> Accepts(cb, old(encoded.Rest())) == |old(encoded.Rest())|
      ensures var p := old(encoded.Rest());
        sent == Take(p, Accepts(cb, p)) && encoded.Rest() == Drop(p, Accepts(cb, p))
    {
      sent := [];
      if encoded.Buffer? {
        var ret := cb(encoded.Rest());
        if ret > 0 {
          var b := encoded.Rest();
          ConservedFlush(taken, b, chunks, metaWrite, appended, ret);
          sent := b[..ret];
          encoded := Buffer(encoded.data, encoded.offset + ret);
          assert encoded.Rest() == b[ret..];
          taken := taken + sent;
          if encoded.offset == |encoded.data| {
            encoded := NoBuffer;
          }
        }
      }
    }

    /** One more chunk, encoded as `bytes`, is accepted while nothing is pending. */
    method Accept(c: Chunk, bytes: Bytes)
      requires Valid() && encoded == NoBuffer && c.metas == metaWrite && bytes == Encoded(c) && bytes != []
      requires |c.data| <= MAX_CHUNK && (c.flush ==> c.data == [])
      modifies this`encoded, this`metaWrite, this`chunks
      ensures Valid() && metaWrite == [] && chunks == old(chunks) + [c] && encoded.Rest() == Encoded(c)
    {
      ConservedAccept(taken, chunks, c, appended);
      encoded, metaWrite := Buffer(bytes, 0), [];
      assert encoded.Rest() == bytes;
      chunks := chunks + [c];
    }

    /** `__enc_chunked_write`: refuses while anything is pending, else encodes one chunk. */
    method ProcessWrite(buf: Option<Bytes>) returns (ret: int)
      requires Valid()
      modifies this`encoded, this`metaWrite, this`chunks
      ensures Valid()
      ensures old(encoded).Buffer? ==>
        ret == 0 && chunks == old(chunks) && metaWrite == old(metaWrite) && encoded == old(encoded)
      ensures old(encoded) == NoBuffer ==>
        var c := Chunk(old(metaWrite), Chunked(buf), buf.None?);
        ret == |c.data| && metaWrite == [] && chunks == old(chunks) + [c] && encoded.Rest() == Encoded(c)
    {
      var n := Pending();
      if n > 0 {
        return 0;
      }
      var data := Chunked(buf);
      var bytes := EncodeChunk(metaWrite, data, buf.None?);
      Accept(Chunk(metaWrite, data, buf.None?), bytes);
      ret := |data|;
    }

    /**
    `httpp_encoding_write`: flush, encode unless something is still pending, flush again.  The two
    arguments are what the write callback does on its first and on its second call; `sent` is all it took.
    */
    method Write(buf: Option<Bytes>, cbFirst: Bytes -> int, cbSecond: Bytes -> int) returns (ret: int, sent: Bytes)
      requires Valid() && LegalWriter(cbFirst) && LegalWriter(cbSecond)
      modifies this
      ensures Valid() && taken == old(taken) + sent && appended == old(appended)
      ensures Accepts(cbFirst, old(encoded.Rest())) < |old(encoded.Rest())| ==>
        ret == 0 && metaWrite == old(metaWrite) && chunks == old(chunks)
      ensures Accepts(cbFirst, old(encoded.Rest())) == |old(encoded.Rest())| ==>
        var c := Chunk(old(metaWrite), Chunked(buf), buf.None?);
        ret == |c.data| && metaWrite == [] && chunks == old(chunks) + [c]
      ensures var before := old(encoded.Rest());
        var left := Drop(before, Accepts(cbFirst, before));
        var full := if left == [] then Encoded(Chunk(old(metaWrite), Chunked(buf), buf.None?)) else left;
        && sent == Take(before, Accepts(cbFirst, before)) + Take(full, Accepts(cbSecond, full))
        && encoded.Rest() == Drop(full, Accepts(cbSecond, full))
    {
      var first := Flush(cbFirst);
      ret := ProcessWrite(buf);
      var second := Flush(cbSecond);
      Handed(old(taken), first, second);
      sent := first + second;
    }
  }

  // ---------------------------------------------------------------- end to end

  /** Seen from the whole wire, the reader's state still tells the truth. */
  lemma {:induction false} ReaderOnWire(w: Encoder, r: Decoder) returns (m: Message)
    requires w.Valid() && r.Valid() && r.fetched <= w.taken && Findable(w.chunks)
    ensures Told(w.chunks) == Prepend(r.delivered + r.decoded.Rest(), r.headers, m)
    ensures r.bytesTillEof != -1 ==> m.data == []
  {
    var wire := Wire(w.chunks);
    WireDecodes(w.chunks);
    var u := wire[|r.fetched|..];
    assert r.fetched + u == wire && Future(u);
    m := Remaining(r.readBytesTillHeader, r.bytesTillEof, r.raw.Rest() + u);
  }

  lemma PrefixSaid(told: Message, a: Bytes, b: Bytes, h: seq<Bytes>, m: Message)
    requires told == Prepend(a + b, h, m)
    ensures a <= told.data && (m.data == [] ==> told.data == a + b)
  {
    assert told.data == a + (b + m.data);
  }

  lemma PrefixTrans(a: Bytes, b: Bytes, c: Bytes)
    requires a <= b && b <= c
    ensures a <= c
  {
    assert a == b[..|a|] == c[..|b|][..|a|];
  }

  /**
  However the writes were flushed and however the bytes were cut up on their way to the reader, what
  the reader has delivered is a prefix of what the writer has accepted; and once the reader has
  seen the last chunk's header, it has delivered or holds all that was accepted before that chunk.
  */
  lemma {:induction false} EndToEnd(w: Encoder, r: Decoder)
    requires w.Valid() && r.Valid() && r.fetched <= w.taken && Findable(w.chunks)
    ensures r.delivered <= Data(w.chunks)
    ensures r.bytesTillEof != -1 ==> r.delivered + r.decoded.Rest() == Told(w.chunks).data
  {
    var m := ReaderOnWire(w, r);
    var said, held := r.delivered, r.decoded.Rest();
    var told := Told(w.chunks);
    PrefixSaid(told, said, held, r.headers, m);
    ToldIsPrefix(w.chunks);
    PrefixTrans(said, told.data, Data(w.chunks));
  }

  lemma {:induction false} ToldFlush(pre: seq<Chunk>, c: Chunk)
    requires NoneEmpty(pre) && c.data == []
    ensures Told(pre + [c]).tail == |EndOf(c)| && Told(pre + [c]).data == Data(pre) == Data(pre + [c])
    decreases |pre|
  {
    if pre == [] {
      assert [c][1..] == [] && EndOf(c) + [] == EndOf(c);
    } else {
      assert (pre + [c])[1..] == pre[1..] + [c];
      assert NoneEmpty(pre[1..]) by { assert forall i :: 0 <= i < |pre[1..]| ==> pre[1..][i] == pre[i + 1]; }
      ToldFlush(pre[1..], c);
    }
  }

  /** No write was empty. */
  ghost predicate NoneEmpty(cs: seq<Chunk>) { forall i :: 0 <= i < |cs| ==> cs[i].data != [] }

  /**
  This writer's own end of stream is noticed: once all bytes up to a final flush have been fetched
  and the header of the flush has been read, the reader is at its end with everything delivered.
  */
  lemma {:induction false} FlushNoticed(w: Encoder, r: Decoder, pre: seq<Chunk>, c: Chunk)
    requires w.Valid() && r.Valid() && Findable(w.chunks) && w.chunks == pre + [c] && c.flush && NoneEmpty(pre)
    requires r.fetched == Wire(w.chunks) && r.bytesTillEof != -1
    ensures r.bytesTillEof == 0 && r.decoded.Rest() == [] && r.delivered == Data(w.chunks)
  {
    WireDecodes(w.chunks);
    assert c == w.chunks[|pre|];
    ToldFlush(pre, c);
    r.EndNoticed();
    r.Said();
    assert r.delivered + [] == r.delivered;
  }

  lemma {:induction false} ToldExts(cs: seq<Chunk>, i: nat)
    requires i < |Told(cs).exts|
    ensures i < |cs| && Told(cs).exts[i] == Print(cs[i].metas)
  {
    if cs[0].data != [] && i > 0 {
      ToldExts(cs[1..], i - 1);
    }
  }

  /** The metadata the reader scans from a header is the list the writer printed into it. */
  lemma {:induction false} MetadataEndToEnd(w: Encoder, r: Decoder, i: nat)
    requires w.Valid() && r.Valid() && r.fetched <= w.taken && Findable(w.chunks) && i < |r.headers|
    ensures i < |w.chunks|
    ensures r.Scanned(i) == w.chunks[i].metas <==> Plain(w.chunks[i].metas) && Separated(w.chunks[i].metas)
  {
    var m := ReaderOnWire(w, r);
    assert Told(w.chunks).exts[i] == r.headers[i];
    ToldExts(w.chunks, i);
    var ext := r.headers[i];
    assert (ext + (CRLF + r.rests[i]))[..|ext|] == ext;
    ParsePrint(ext + (CRLF + r.rests[i]), 0, w.chunks[i].metas, |ext|);
  }

  lemma {:induction false} ScannedPrefix(headers: seq<Bytes>, rests: seq<Bytes>, cs: seq<Chunk>)
    requires |headers| == |rests| == |cs|
    requires forall i :: 0 <= i < |cs| ==> ScannedIn(headers[i], rests[i]) == cs[i].metas
    ensures AllScanned(headers, rests) == AllMetas(cs)
    decreases |cs|
  {
    if cs != [] {
      var n := |cs| - 1;
      ScannedPrefix(headers[..n], rests[..n], cs[..n]);
      assert cs == cs[..n] + [cs[n]];
      MetasAppend(cs[..n], cs[n]);
    }
  }

  /** The metadata the caller was given or can still fetch is that of the chunks whose headers were read, in order. */
  lemma {:induction false} AllMetadataEndToEnd(w: Encoder, r: Decoder)
    requires w.Valid() && r.Valid() && r.fetched <= w.taken && Findable(w.chunks)
    requires forall i :: 0 <= i < |w.chunks| ==> Plain(w.chunks[i].metas) && Separated(w.chunks[i].metas)
    ensures |r.headers| <= |w.chunks| && r.handed + r.metaRead == AllMetas(w.chunks[..|r.headers|])
  {
    var n := |r.headers|;
    if n > 0 {
      MetadataEndToEnd(w, r, n - 1);
    }
    forall i | 0 <= i < n ensures r.Scanned(i) == w.chunks[..n][i].metas {
      MetadataEndToEnd(w, r, i);
    }
    ScannedPrefix(r.headers, r.rests, w.chunks[..n]);
  }
}
