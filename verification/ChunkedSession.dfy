/**
A writer and a reader at the two ends of a pipe that cuts the stream up as it likes, in any order of
writes, flushes, metadata and reads.
*/
module ChunkedSession {
  import opened CTypes
  import opened ChunkedFormat
  import opened Extensions
  import opened ChunkedReader
  import opened ChunkedWriter

  /**
  What can happen: metadata is handed over; a buffer is written, or a flush asked for, while the pipe
  takes what it likes; a read with room for `len` bytes, for which the pipe gives at most `cut`.
  */
  datatype Event =
    | Append(ms: seq<Meta>)
    | Write(buf: Option<Bytes>, first: Bytes -> int, second: Bytes -> int)
    | Read(len: nat, cut: nat)

  ghost predicate Legal(e: Event) {
    match e
    case Append(ms) => CStrings(ms)
    case Write(_, first, second) => LegalWriter(first) && LegalWriter(second)
    case Read(_, _) => true
  }

  /** What the pipe gives a reader that asks for `max` bytes. */
  function Cut(pipe: Bytes, cut: nat, max: nat): Reply {
    var n := if cut < max then cut else max;
    if n == 0 || pipe == [] then Refused(0) else Got(Take(pipe, n))
  }

  function Tap(pipe: Bytes, cut: nat): Callback { Callback((max: nat) => Cut(pipe, cut, max)) }

  lemma TapGives(pipe: Bytes, cut: nat, max: nat)
    ensures LegalCallback(Tap(pipe, cut))
    ensures var got := Given(Tap(pipe, cut), max); |got| <= |pipe| && pipe == got + pipe[|got|..]
  {
    forall m: nat ensures Cut(pipe, cut, m).Legal(m) {}
    assert Tap(pipe, cut).read(max) == Cut(pipe, cut, max);
  }

  /** The bytes a write was accepted with, from the count it returned. */
  function Counted(buf: Option<Bytes>, ret: nat): Bytes { if buf.None? then [] else Take(buf.value, ret) }

  lemma CountedIsChunked(buf: Option<Bytes>, accepted: Bytes)
    ensures Counted(buf, |Chunked(buf)|) == Chunked(buf) && accepted + Counted(buf, 0) == accepted
  {}

  class Session {
    const encoder: Encoder
    const decoder: Decoder
    /** Taken from the writer and not yet given to the reader. */
    var pipe: Bytes
    /** All bytes of all writes accepted, up to the count each was accepted with. */
    var accepted: Bytes

    ghost predicate Valid()
      reads this, encoder, decoder
    {
      && encoder.Valid() && decoder.Valid()
      && encoder.taken == decoder.fetched + pipe
      && accepted == Data(encoder.chunks)
    }

    constructor ()
      ensures Valid() && accepted == [] && pipe == [] && fresh(encoder) && fresh(decoder)
      ensures encoder.encoded == NoBuffer && encoder.metaWrite == [] && encoder.chunks == []
      ensures decoder.Now() == State(NoBuffer, NoBuffer, -1, 0) && decoder.fetched == [] && decoder.delivered == []
      ensures decoder.headers == [] && decoder.rests == []
    {
      encoder := new Encoder();
      decoder := new Decoder();
      pipe, accepted := [], [];
    }

    method AppendMeta(ms: seq<Meta>)
      requires Valid() && CStrings(ms)
      modifies encoder
      ensures Valid() && decoder.delivered == old(decoder.delivered)
    {
      encoder.AppendMeta(ms);
    }

    method Write(buf: Option<Bytes>, first: Bytes -> int, second: Bytes -> int)
      requires Valid() && LegalWriter(first) && LegalWriter(second)
      modifies this, encoder
      ensures Valid() && decoder.delivered == old(decoder.delivered)
      ensures var before := old(encoder.encoded.Rest());
        var left := Drop(before, Accepts(first, before));
        var c := Chunk(old(encoder.metaWrite), Chunked(buf), buf.None?);
        if left == [] then
          && accepted == old(accepted) + c.data && encoder.chunks == old(encoder.chunks) + [c]
          && encoder.metaWrite == [] && encoder.encoded.Rest() == Drop(Encoded(c), Accepts(second, Encoded(c)))
        else
          && accepted == old(accepted) && encoder.chunks == old(encoder.chunks)
          && encoder.metaWrite == old(encoder.metaWrite) && encoder.encoded.Rest() == Drop(left, Accepts(second, left))
    {
      DataAppend(encoder.chunks, Chunk(encoder.metaWrite, Chunked(buf), buf.None?));
      CountedIsChunked(buf, accepted);
      var ret, sent := encoder.Write(buf, first, second);
      Handed(decoder.fetched, pipe, sent);
      pipe, accepted := pipe + sent, accepted + Counted(buf, ret);
    }

    method Read(len: nat, cut: nat) returns (out: Bytes)
      requires Valid()
      modifies this, decoder
      ensures Valid() && accepted == old(accepted) && decoder.delivered == old(decoder.delivered) + out
      ensures |out| == len || decoder.decoded == NoBuffer
      ensures var got := Fetch(old(decoder.Now()), len, Tap(old(pipe), cut));
        && old(pipe) == got + pipe
        && (!old(decoder.Now()).Rejects(got) ==>
              decoder.AsView().(decoded := out + decoder.decoded.Rest()) == ReadStep(old(decoder.AsView()), got))
        && (WellFormed(decoder.fetched) ==> !old(decoder.Now()).Rejects(got))
    {
      var have := |decoder.decoded.Rest()|;
      var got := Fetch(decoder.Now(), len, Tap(pipe, cut));
      if len > have {
        TapGives(pipe, cut, decoder.Now().Asks(len - have));
      } else {
        TapGives(pipe, cut, 0);
        assert [] + pipe[0..] == pipe;
      }
      Handed(decoder.fetched, got, pipe[|got|..]);
      var ret;
      ret, out := decoder.Read(len, Tap(pipe, cut));
      pipe := pipe[|got|..];
    }

    method Step(e: Event) returns (out: Bytes)
      requires Valid() && Legal(e)
      modifies this, encoder, decoder
      ensures Valid() && decoder.delivered == old(decoder.delivered) + out
    {
      out := [];
      Handed(decoder.delivered, [], []);
      match e
      case Append(ms) => AppendMeta(ms);
      case Write(buf, first, second) => this.Write(buf, first, second);
      case Read(len, cut) => out := this.Read(len, cut);
    }

    /** If the reader can find every header, what was delivered is a prefix of what was accepted. */
    lemma {:induction false} Prefix()
      requires Valid()
      ensures Findable(encoder.chunks) ==> decoder.delivered <= accepted
    {
      assert decoder.fetched <= encoder.taken;
      if Findable(encoder.chunks) { EndToEnd(encoder, decoder); }
    }

    /** Nothing is pending at the writer, in the pipe or decoded; the reader may hold input it has not parsed. */
    ghost predicate Drained()
      reads this, encoder, decoder
    {
      encoder.encoded == NoBuffer && pipe == [] && decoder.decoded.Valid() && decoder.decoded.Rest() == []
    }

    /**
    Nothing is lost on the way, but something may be stuck: once nothing is on the way any more, all
    bytes of all writes accepted have been delivered if and only if the reader's raw buffer is gone
    (none of the writes having been empty: an empty chunk ends the stream).
    */
    lemma {:induction false} AllDelivered()
      requires Valid()
      ensures Drained() && Findable(encoder.chunks) && NoneEmpty(encoder.chunks) ==>
        (decoder.delivered == accepted <==> decoder.raw == NoBuffer)
    {
      if Drained() && Findable(encoder.chunks) && NoneEmpty(encoder.chunks) {
        WireDecodes(encoder.chunks);
        ToldAll(encoder.chunks);
        assert encoder.taken + [] == encoder.taken && decoder.fetched + [] == decoder.fetched;
        decoder.Said();
        var m := Remaining(decoder.readBytesTillHeader, decoder.bytesTillEof, decoder.raw.Rest());
        NothingRemains(decoder.readBytesTillHeader, decoder.bytesTillEof, decoder.raw.Rest());
        assert decoder.delivered + [] == decoder.delivered && accepted == decoder.delivered + m.data;
      }
    }
  }

  lemma {:induction false} ToldAll(cs: seq<Chunk>)
    requires NoneEmpty(cs)
    ensures Told(cs).data == Data(cs) && Told(cs).tail == -1 && Told(cs).over == 0
  {
    if cs != [] {
      assert forall i :: 0 <= i < |cs[1..]| ==> cs[1..][i] == cs[i + 1];
      ToldAll(cs[1..]);
    }
  }

  /** Of a stream cut off behind a whole chunk, nothing remains to be said exactly if nothing is left to parse. */
  lemma {:induction false} NothingRemains(till: nat, eof: int, x: Bytes)
    requires till != 1 && (eof != -1 ==> till <= 2) && (till == 2 ==> |x| <= 1) && (till > 2 ==> x == [])
    requires Remaining(till, eof, x).over == 0 && Remaining(till, eof, x).tail == -1
    ensures Remaining(till, eof, x).data == [] <==> x == []
  {
    if x == [] { assert FindHeader(x) == NoHeader; }
  }

  /**
  A whole run: whatever is written, however the pipe takes and gives, the bytes read so far are those
  accepted so far, in order, none missing and none twice, as far as they go.
  */
  method Run(events: seq<Event>) returns (session: Session, out: Bytes)
    requires forall i :: 0 <= i < |events| ==> Legal(events[i])
    ensures fresh(session) && session.Valid() && out == session.decoder.delivered
    ensures Findable(session.encoder.chunks) ==> out <= session.accepted
  {
    session := new Session();
    out := [];
    for n := 0 to |events|
      invariant fresh(session) && fresh(session.encoder) && fresh(session.decoder)
      invariant session.Valid() && out == session.decoder.delivered
    {
      var more := session.Step(events[n]);
      out := out + more;
    }
    session.Prefix();
  }
}
