/**
Chunk extensions, the metadata of the chunked coding: how the writer prints a list of them into a
header and how the reader scans them back.
*/
module Extensions {
  import opened CTypes
  import opened ChunkedFormat

  /** A key and a value, each absent or given. */
  datatype Meta = Meta(key: Option<Bytes>, value: Option<Bytes>) {
    /** What there is to print of the value: nothing of an absent one, as of an empty one. */
    function Text(): Bytes { if value.None? then [] else value.value }
  }

  // ---------------------------------------------------------------- printing

  /** A value as it stands between quotes: every quote with a backslash before it. */
  function Escape(v: Bytes): Bytes {
    if v == [] then []
    else if v[0] == QUOTE then [BACKSLASH, QUOTE] + Escape(v[1..])
    else [v[0]] + Escape(v[1..])
  }

  function PrintValue(v: Bytes): Bytes {
    if v == [] then [] else [EQUALS, QUOTE] + Escape(v) + [QUOTE]
  }

  /** Metadata without a key is not printed. */
  function PrintOne(m: Meta): Bytes {
    if m.key.None? then [] else [SEMICOLON] + m.key.value + PrintValue(m.Text())
  }

  function Print(ms: seq<Meta>): Bytes {
    if ms == [] then [] else PrintOne(ms[0]) + Print(ms[1..])
  }

  // ---------------------------------------------------------------- scanning

  /** What a read at a position finds; past the end of the buffer the model reads zero. */
  function At(mem: Bytes, i: nat): int { if i < |mem| then mem[i] else 0 }

  /** The end of a key: the first equals sign from `i` on, or `end`. */
  function KeyEnd(mem: Bytes, i: nat, end: nat): (k: nat)
    requires i <= end <= |mem|
    ensures i <= k <= end && (k < end ==> mem[k] == EQUALS)
    ensures forall j :: i <= j < k ==> mem[j] != EQUALS
    decreases end - i
  {
    if i == end || mem[i] == EQUALS then i else KeyEnd(mem, i + 1, end)
  }

  /** `quote` after a byte inside a quoted string: a backslash escapes what follows, up to a quote. */
  function NextQuote(quote: nat, b: Byte): nat
    requires quote > 0
  {
    if b == BACKSLASH then 2 else if b == QUOTE then quote - 1 else quote
  }

  /** The end of a value: behind the closing quote, or at a semicolon outside quotes, or at `end`. */
  function ValueEnd(mem: Bytes, i: nat, end: nat, quote: nat): (k: nat)
    requires i <= end <= |mem|
    ensures i <= k <= end
    decreases end - i
  {
    if i == end then i
    else if quote > 0 then
      if NextQuote(quote, mem[i]) > 0 then ValueEnd(mem, i + 1, end, NextQuote(quote, mem[i])) else i + 1
    else if mem[i] == QUOTE then ValueEnd(mem, i + 1, end, 1)
    else if mem[i] == SEMICOLON then i
    else ValueEnd(mem, i + 1, end, 0)
  }

  /**
  The value between `i` and `end`, quotes and backslashes undone.  Outside quotes the scan stops when
  it finds a semicolon as far behind `end` as there are bytes left before it.
  */
  function ValueText(mem: Bytes, i: nat, end: nat, quote: nat): Bytes
    requires i <= end <= |mem|
    decreases end - i
  {
    if i == end then []
    else if quote > 0 then
      var q := NextQuote(quote, mem[i]);
      var b: Bytes :=
        if mem[i] == BACKSLASH then [] else if mem[i] == QUOTE then (if q > 0 then [QUOTE] else []) else [mem[i]];
      if q > 0 then b + ValueText(mem, i + 1, end, q) else b
    else if mem[i] == QUOTE then ValueText(mem, i + 1, end, 1)
    else if At(mem, end + (end - i)) == SEMICOLON then []
    else [mem[i]] + ValueText(mem, i + 1, end, 0)
  }

  /** The extensions spelled between `pos` and `end`. */
  function Parse(mem: Bytes, pos: nat, end: nat): seq<Meta>
    requires pos <= end <= |mem|
    decreases end - pos
  {
    if pos == end || mem[pos] != SEMICOLON then []
    else
      var k := KeyEnd(mem, pos + 1, end);
      var key := Some(mem[pos + 1..k]);
      if k == end || k + 1 == end then [Meta(key, None)]
      else
        var v := ValueEnd(mem, k + 1, end, 0);
        [Meta(key, Some(ValueText(mem, k + 1, v, 0)))] + Parse(mem, v, end)
  }

  // ---------------------------------------------------------------- round trip

  ghost predicate PlainKey(k: Bytes) { forall i :: 0 <= i < |k| ==> k[i] != EQUALS }
  ghost predicate PlainValue(v: Bytes) { forall i :: 0 <= i < |v| ==> v[i] != BACKSLASH }

  ghost predicate PlainKeys(ms: seq<Meta>) {
    forall i :: 0 <= i < |ms| ==> ms[i].key.Some? && PlainKey(ms[i].key.value)
  }

  ghost predicate PlainValues(ms: seq<Meta>) { forall i :: 0 <= i < |ms| ==> PlainValue(ms[i].Text()) }

  /** Keys are given and have no equals sign, values have no backslash. */
  ghost predicate Plain(ms: seq<Meta>) { PlainKeys(ms) && PlainValues(ms) }

  /**
  Every extension but the last has a value that is not empty: a key without one has nothing to end
  it.  The value of the last may be absent, but is not empty: nothing would be printed of it.
  */
  ghost predicate Separated(ms: seq<Meta>) {
    forall i :: 0 <= i < |ms| ==> ms[i].value != Some([]) && (i < |ms| - 1 ==> ms[i].value != None)
  }

  /** `text` stands at `i` in `mem`. */
  ghost predicate Reads(mem: Bytes, i: nat, text: Bytes) {
    i + |text| <= |mem| && mem[i..i + |text|] == text
  }

  lemma ReadsFirst(s: Bytes, i: nat, t: Bytes)
    requires t != [] && Reads(s, i, t)
    ensures s[i] == t[0] && Reads(s, i + 1, t[1..])
  {
    assert s[i..i + |t|][0] == t[0];
    assert s[i + 1..i + |t|] == s[i..i + |t|][1..];
  }

  lemma ReadsParts(mem: Bytes, i: nat, a: Bytes, b: Bytes)
    requires Reads(mem, i, a + b)
    ensures Reads(mem, i, a) && Reads(mem, i + |a|, b)
  {
    var s := mem[i..i + |a + b|];
    assert mem[i..i + |a|] == s[..|a|] && mem[i + |a|..i + |a| + |b|] == s[|a|..];
  }

  lemma ReadsJoined(mem: Bytes, i: nat, text: Bytes, a: Bytes, b: Bytes, j: nat)
    requires Reads(mem, i, text) && text == a + b && j == i + |a|
    ensures Reads(mem, i, a) && Reads(mem, j, b) && i + |text| == j + |b|
  {
    ReadsParts(mem, i, a, b);
  }

  lemma {:induction false} KeyEndFinds(mem: Bytes, i: nat, end: nat, k: Bytes)
    requires i + |k| <= end <= |mem| && Reads(mem, i, k) && PlainKey(k)
    requires i + |k| == end || mem[i + |k|] == EQUALS
    ensures KeyEnd(mem, i, end) == i + |k|
    decreases |k|
  {
    if k != [] {
      assert mem[i] == k[0];
      assert mem[i + 1..i + |k|] == k[1..];
      KeyEndFinds(mem, i + 1, end, k[1..]);
    }
  }

  /** Scanning an escaped value up to its closing quote finds that quote and undoes the escapes. */
  lemma {:induction false} QuotedScan(mem: Bytes, i: nat, end: nat, v: Bytes)
    requires PlainValue(v) && i + |Escape(v)| < end <= |mem| && Reads(mem, i, Escape(v) + [QUOTE])
    ensures ValueEnd(mem, i, end, 1) == i + |Escape(v)| + 1
    ensures ValueText(mem, i, i + |Escape(v)| + 1, 1) == v
    decreases |v|
  {
    var t := Escape(v) + [QUOTE];
    ReadsFirst(mem, i, t);
    if v != [] {
      var u := Escape(v[1..]) + [QUOTE];
      if v[0] == QUOTE {
        assert t[1..] == [QUOTE] + u;
        ReadsFirst(mem, i + 1, t[1..]);
        assert t[1..][1..] == u;
        QuotedScan(mem, i + 2, end, v[1..]);
      } else {
        assert t[1..] == u;
        QuotedScan(mem, i + 1, end, v[1..]);
      }
    }
  }

  /** Where the pieces of a printed extension with a value stand. */
  lemma {:induction false} PrintedLayout(mem: Bytes, pos: nat, key: Bytes, e: Bytes, k: nat)
    requires Reads(mem, pos, [SEMICOLON] + (key + ([EQUALS, QUOTE] + e))) && k == pos + 1 + |key|
    ensures k + 2 + |e| <= |mem| && mem[pos] == SEMICOLON && mem[k] == EQUALS && mem[k + 1] == QUOTE
    ensures Reads(mem, pos + 1, key) && Reads(mem, k + 2, e)
  {
    var inner := [EQUALS, QUOTE] + e;
    ReadsParts(mem, pos, [SEMICOLON], key + inner);
    ReadsParts(mem, pos + 1, key, inner);
    ReadsParts(mem, k, [EQUALS, QUOTE], e);
    assert mem[pos..pos + 1][0] == SEMICOLON && mem[k..k + 2][0] == EQUALS && mem[k..k + 2][1] == QUOTE;
  }

  lemma {:induction false} QuotedValue(mem: Bytes, i: nat, end: nat, v: Bytes, next: nat)
    requires PlainValue(v) && i < |mem| && mem[i] == QUOTE && Reads(mem, i + 1, Escape(v) + [QUOTE])
    requires next == i + 1 + |Escape(v)| + 1 <= end <= |mem|
    ensures ValueEnd(mem, i, end, 0) == next && ValueText(mem, i, next, 0) == v
  {
    QuotedScan(mem, i + 1, end, v);
  }

  // ---------------------------------------------------------------- where the text stands does not matter

  /** From `i` in `mem` and from `j` in `m` on stands the same. */
  ghost predicate Alike(mem: Bytes, i: nat, m: Bytes, j: nat) {
    i <= |mem| && j <= |m| && mem[i..] == m[j..]
  }

  lemma AlikeAt(mem: Bytes, i: nat, m: Bytes, j: nat)
    requires Alike(mem, i, m, j)
    ensures |mem| - i == |m| - j
    ensures i < |mem| ==> mem[i] == m[j] && Alike(mem, i + 1, m, j + 1)
  {
    if i < |mem| {
      assert mem[i] == mem[i..][0] && m[j] == m[j..][0];
      assert mem[i + 1..] == mem[i..][1..] && m[j + 1..] == m[j..][1..];
    }
  }

  lemma AlikeBehind(mem: Bytes, i: nat, m: Bytes, j: nat, n: nat)
    requires Alike(mem, i, m, j)
    ensures At(mem, i + n) == At(m, j + n)
    ensures i + n <= |mem| ==> Alike(mem, i + n, m, j + n) && mem[i..i + n] == m[j..j + n]
  {
    if i + n <= |mem| {
      assert mem[i + n..] == mem[i..][n..] && m[j + n..] == m[j..][n..];
      assert mem[i..i + n] == mem[i..][..n] && m[j..j + n] == m[j..][..n];
    }
    if i + n < |mem| {
      assert mem[i + n] == mem[i..][n] && m[j + n] == m[j..][n];
    }
  }

  /** The end of a key, counted from where it begins. */
  lemma {:induction false} KeyEndAlike(mem: Bytes, i: nat, end: nat, m: Bytes, j: nat, end': nat)
    requires Alike(mem, i, m, j) && i <= end <= |mem| && end' - j == end - i
    ensures KeyEnd(mem, i, end) - i == KeyEnd(m, j, end') - j
    decreases end - i
  {
    AlikeAt(mem, i, m, j);
    if i < end { KeyEndAlike(mem, i + 1, end, m, j + 1, end'); }
  }

  lemma {:induction false} ValueEndAlike(mem: Bytes, i: nat, end: nat, m: Bytes, j: nat, end': nat, quote: nat)
    requires Alike(mem, i, m, j) && i <= end <= |mem| && end' - j == end - i
    ensures ValueEnd(mem, i, end, quote) - i == ValueEnd(m, j, end', quote) - j
    decreases end - i
  {
    AlikeAt(mem, i, m, j);
    if i < end {
      var q := if quote > 0 then NextQuote(quote, mem[i]) else if mem[i] == QUOTE then 1 else 0;
      ValueEndAlike(mem, i + 1, end, m, j + 1, end', q);
    }
  }

  lemma {:induction false} ValueTextAlike(mem: Bytes, i: nat, end: nat, m: Bytes, j: nat, end': nat, quote: nat)
    requires Alike(mem, i, m, j) && i <= end <= |mem| && end' - j == end - i
    ensures ValueText(mem, i, end, quote) == ValueText(m, j, end', quote)
    decreases end - i
  {
    AlikeAt(mem, i, m, j);
    if i < end {
      AlikeBehind(mem, i, m, j, 2 * (end - i));
      assert i + 2 * (end - i) == end + (end - i) && j + 2 * (end - i) == end' + (end' - j);
      var q := if quote > 0 then NextQuote(quote, mem[i]) else if mem[i] == QUOTE then 1 else 0;
      ValueTextAlike(mem, i + 1, end, m, j + 1, end', q);
    }
  }

  lemma {:induction false} ValueAlike(mem: Bytes, i: nat, end: nat, m: Bytes, j: nat, end': nat)
    requires Alike(mem, i, m, j) && i <= end <= |mem| && end' - j == end - i
    ensures var v, v' := ValueEnd(mem, i, end, 0), ValueEnd(m, j, end', 0);
      v - i == v' - j && Alike(mem, v, m, v') && ValueText(mem, i, v, 0) == ValueText(m, j, v', 0)
  {
    var v, v' := ValueEnd(mem, i, end, 0), ValueEnd(m, j, end', 0);
    ValueEndAlike(mem, i, end, m, j, end', 0);
    AlikeBehind(mem, i, m, j, v - i);
    ValueTextAlike(mem, i, v, m, j, v', 0);
  }

  lemma {:induction false} KeyAlike(mem: Bytes, pos: nat, end: nat, m: Bytes, pos': nat, end': nat)
    requires Alike(mem, pos, m, pos') && pos < end <= |mem| && end' - pos' == end - pos
    ensures var k, k' := KeyEnd(mem, pos + 1, end), KeyEnd(m, pos' + 1, end');
      && k - pos == k' - pos' && mem[pos + 1..k] == m[pos' + 1..k']
      && (k < end ==> Alike(mem, k + 1, m, k' + 1))
  {
    AlikeAt(mem, pos, m, pos');
    var k, k' := KeyEnd(mem, pos + 1, end), KeyEnd(m, pos' + 1, end');
    KeyEndAlike(mem, pos + 1, end, m, pos' + 1, end');
    AlikeBehind(mem, pos + 1, m, pos' + 1, k - (pos + 1));
    AlikeAt(mem, k, m, k');
  }

  /** The first extension and the others, read alike. */
  lemma ParseJoined(mem: Bytes, pos: nat, end: nat, k: nat, v: nat, m: Bytes, pos': nat, end': nat, k': nat, v': nat)
    requires pos < end <= |mem| && mem[pos] == SEMICOLON && KeyEnd(mem, pos + 1, end) == k && k + 1 < end
    requires pos' < end' <= |m| && m[pos'] == SEMICOLON && KeyEnd(m, pos' + 1, end') == k' && k' + 1 < end'
    requires ValueEnd(mem, k + 1, end, 0) == v && ValueEnd(m, k' + 1, end', 0) == v'
    requires mem[pos + 1..k] == m[pos' + 1..k'] && ValueText(mem, k + 1, v, 0) == ValueText(m, k' + 1, v', 0)
    requires Parse(mem, v, end) == Parse(m, v', end')
    ensures Parse(mem, pos, end) == Parse(m, pos', end')
  {
    ParseStep(mem, pos, end, k, v);
    ParseStep(m, pos', end', k', v');
  }

  lemma ParseLast(mem: Bytes, pos: nat, end: nat, k: nat)
    requires pos < end <= |mem| && mem[pos] == SEMICOLON && KeyEnd(mem, pos + 1, end) == k && k + 1 >= end
    ensures Parse(mem, pos, end) == [Meta(Some(mem[pos + 1..k]), None)]
  {}

  /** Reading depends on the text and on what is behind it, not on what is before it. */
  lemma {:induction false} ParseAlike(mem: Bytes, pos: nat, end: nat, m: Bytes, pos': nat, end': nat)
    requires Alike(mem, pos, m, pos') && pos <= end <= |mem| && end' - pos' == end - pos
    ensures Parse(mem, pos, end) == Parse(m, pos', end')
    decreases end - pos
  {
    AlikeAt(mem, pos, m, pos');
    if pos == end || mem[pos] != SEMICOLON {
      return;
    }
    var k, k' := KeyEnd(mem, pos + 1, end), KeyEnd(m, pos' + 1, end');
    KeyAlike(mem, pos, end, m, pos', end');
    if k + 1 >= end {
      ParseLast(mem, pos, end, k);
      ParseLast(m, pos', end', k');
      return;
    }
    var v, v' := ValueEnd(mem, k + 1, end, 0), ValueEnd(m, k' + 1, end', 0);
    ValueAlike(mem, k + 1, end, m, k' + 1, end');
    ParseAlike(mem, v, end, m, v', end');
    ParseJoined(mem, pos, end, k, v, m, pos', end', k', v');
  }

  lemma ParseStep(mem: Bytes, pos: nat, end: nat, k: nat, next: nat)
    requires pos < end <= |mem| && mem[pos] == SEMICOLON && KeyEnd(mem, pos + 1, end) == k && k + 1 < end
    requires ValueEnd(mem, k + 1, end, 0) == next
    ensures Parse(mem, pos, end) ==
      [Meta(Some(mem[pos + 1..k]), Some(ValueText(mem, k + 1, next, 0)))] + Parse(mem, next, end)
  {}

  lemma PrintedText(m: Meta)
    requires m.key.Some? && m.Text() != []
    ensures PrintOne(m) == [SEMICOLON] + (m.key.value + ([EQUALS, QUOTE] + (Escape(m.Text()) + [QUOTE])))
  {
    var e := Escape(m.Text()) + [QUOTE];
    assert PrintValue(m.Text()) == [EQUALS, QUOTE] + e;
  }

  /** Inside quotes no backslash is ever part of the value. */
  lemma {:induction false} QuotedPlain(mem: Bytes, i: nat, end: nat, quote: nat)
    requires i <= end <= |mem| && 0 < quote <= 2
    ensures PlainValue(ValueText(mem, i, end, quote))
    decreases end - i
  {
    if i < end && NextQuote(quote, mem[i]) > 0 {
      QuotedPlain(mem, i + 1, end, NextQuote(quote, mem[i]));
    }
  }

  lemma {:induction false} QuotedNeverBackslash(mem: Bytes, i: nat, end: nat)
    requires i < end <= |mem| && mem[i] == QUOTE
    ensures PlainValue(ValueText(mem, i, end, 0))
  {
    QuotedPlain(mem, i + 1, end, 1);
  }

  /**
  Scanning one printed extension with a value: the key is read back whatever follows, and the value
  if there is no backslash in it.  If there is one, what is read is something else.
  */
  lemma {:induction false} ParseQuoted(mem: Bytes, pos: nat, end: nat, key: Bytes, v: Bytes, next: nat, e: Bytes)
    requires PlainKey(key) && e == Escape(v) + [QUOTE]
    requires Reads(mem, pos, [SEMICOLON] + (key + ([EQUALS, QUOTE] + e)))
    requires next == pos + 3 + |key| + |e| <= end <= |mem|
    ensures PlainValue(v) ==> Parse(mem, pos, end) == [Meta(Some(key), Some(v))] + Parse(mem, next, end)
    ensures !PlainValue(v) ==> Parse(mem, pos, end) != [] && Parse(mem, pos, end)[0].value != Some(v)
  {
    var k := pos + 1 + |key|;
    PrintedLayout(mem, pos, key, e, k);
    KeyEndFinds(mem, pos + 1, end, key);
    if PlainValue(v) {
      QuotedValue(mem, k + 1, end, v, next);
      ParseStep(mem, pos, end, k, next);
    } else {
      BackslashLost(mem, pos, end, k, v);
    }
  }

  lemma {:induction false} BackslashLost(mem: Bytes, pos: nat, end: nat, k: nat, v: Bytes)
    requires pos < end <= |mem| && mem[pos] == SEMICOLON && KeyEnd(mem, pos + 1, end) == k && k + 1 < end
    requires mem[k + 1] == QUOTE && !PlainValue(v)
    ensures Parse(mem, pos, end) != [] && Parse(mem, pos, end)[0].value != Some(v)
  {
    var last := ValueEnd(mem, k + 1, end, 0);
    ValueAdvances(mem, k + 1, end);
    ParseStep(mem, pos, end, k, last);
    QuotedNeverBackslash(mem, k + 1, last);
  }

  lemma ValueAdvances(mem: Bytes, i: nat, end: nat)
    requires i < end <= |mem| && mem[i] == QUOTE
    ensures ValueEnd(mem, i, end, 0) > i
  {}

  /** Scanning a printed key that nothing ends: it swallows all up to the next equals sign. */
  lemma {:induction false} ParseBare(mem: Bytes, pos: nat, end: nat, key: Bytes)
    requires PlainKey(key) && Reads(mem, pos, [SEMICOLON] + key) && pos + 1 + |key| <= end <= |mem|
    requires pos + 1 + |key| < end ==> mem[pos + 1 + |key|] != EQUALS
    ensures pos + 1 + |key| == end ==> Parse(mem, pos, end) == [Meta(Some(key), None)]
    ensures pos + 1 + |key| < end ==> Parse(mem, pos, end) != [] && Parse(mem, pos, end)[0].key != Some(key)
  {
    ReadsParts(mem, pos, [SEMICOLON], key);
    assert mem[pos..pos + 1][0] == SEMICOLON;
    var k := pos + 1 + |key|;
    if k == end {
      KeyEndFinds(mem, pos + 1, end, key);
    } else {
      KeyEndBeyond(mem, pos + 1, end, k);
    }
  }

  lemma {:induction false} KeyEndBeyond(mem: Bytes, i: nat, end: nat, k: nat)
    requires i <= k < end <= |mem| && forall j :: i <= j <= k ==> mem[j] != EQUALS
    ensures KeyEnd(mem, i, end) > k
    decreases k - i
  {
    if i < k { KeyEndBeyond(mem, i + 1, end, k); }
  }

  lemma PlainCons(m: Meta, ms: seq<Meta>)
    requires m.key.Some? && PlainKey(m.key.value) && PlainKeys(ms)
    ensures PlainKeys([m] + ms)
  {}

  lemma KeyIsPlain(mem: Bytes, i: nat, end: nat)
    requires i <= end <= |mem|
    ensures PlainKey(mem[i..KeyEnd(mem, i, end)])
  {
    var k := KeyEnd(mem, i, end);
    assert forall j :: 0 <= j < k - i ==> mem[i..k][j] == mem[i + j];
  }

  /** The scanner's keys are given and have no equals sign. */
  lemma {:induction false} ParsedKeys(mem: Bytes, pos: nat, end: nat)
    requires pos <= end <= |mem|
    ensures PlainKeys(Parse(mem, pos, end))
    decreases end - pos
  {
    if pos < end && mem[pos] == SEMICOLON {
      var k := KeyEnd(mem, pos + 1, end);
      KeyIsPlain(mem, pos + 1, end);
      if k < end && k + 1 < end {
        var next := ValueEnd(mem, k + 1, end, 0);
        ParsedKeys(mem, next, end);
        ParseStep(mem, pos, end, k, next);
        PlainCons(Meta(Some(mem[pos + 1..k]), Some(ValueText(mem, k + 1, next, 0))), Parse(mem, next, end));
      }
    }
  }

  /**
  Scanning what was printed gives back the same list exactly when keys are given and have no equals
  sign, values have no backslash, and every extension but the last has a value.
  */
  lemma {:induction false} ParsePrint(mem: Bytes, pos: nat, ms: seq<Meta>, end: nat)
    requires Reads(mem, pos, Print(ms)) && end == pos + |Print(ms)|
    ensures Parse(mem, pos, end) == ms <==> Plain(ms) && Separated(ms)
  {
    ParsedKeys(mem, pos, end);
    if PlainKeys(ms) {
      ParsePlain(mem, pos, ms, end);
    }
  }

  lemma {:induction false} ParsePlain(mem: Bytes, pos: nat, ms: seq<Meta>, end: nat)
    requires PlainKeys(ms) && Reads(mem, pos, Print(ms)) && end == pos + |Print(ms)|
    ensures Parse(mem, pos, end) == ms <==> PlainValues(ms) && Separated(ms)
    decreases |ms|
  {
    if ms == [] {
    } else if ms[0].Text() == [] {
      var key := ms[0].key.value;
      var k := pos + 1 + |key|;
      KeyOnlyLayout(mem, pos, ms, end, key, k);
      KeyOnlyParsed(mem, pos, ms, end, key, k);
    } else {
      var next := pos + |PrintOne(ms[0])|;
      ReadsJoined(mem, pos, Print(ms), PrintOne(ms[0]), Print(ms[1..]), next);
      PlainTail(ms, ms[1..]);
      ParsePlain(mem, next, ms[1..], end);
      ParseThenRest(mem, pos, ms, next, end);
    }
  }

  lemma PlainTail(ms: seq<Meta>, rest: seq<Meta>)
    requires PlainKeys(ms) && ms != [] && rest == ms[1..]
    ensures PlainKeys(rest)
  {
    assert forall i :: 0 <= i < |rest| ==> rest[i] == ms[i + 1];
  }

  lemma {:induction false} ParseThenRest(mem: Bytes, pos: nat, ms: seq<Meta>, next: nat, end: nat)
    requires PlainKeys(ms) && ms != [] && ms[0].Text() != [] && Reads(mem, pos, PrintOne(ms[0]))
    requires next == pos + |PrintOne(ms[0])| <= end <= |mem|
    requires Parse(mem, next, end) == ms[1..] <==> PlainValues(ms[1..]) && Separated(ms[1..])
    ensures Parse(mem, pos, end) == ms <==> PlainValues(ms) && Separated(ms)
  {
    var m := ms[0];
    ValuesTail(ms, ms[1..]);
    PrintedText(m);
    ParseQuoted(mem, pos, end, m.key.value, m.Text(), next, Escape(m.Text()) + [QUOTE]);
    HeadOff(m, Parse(mem, next, end), ms[1..]);
    assert ms == [m] + ms[1..];
  }

  lemma HeadOff(m: Meta, a: seq<Meta>, b: seq<Meta>)
    ensures [m] + a == [m] + b <==> a == b
  {
    assert ([m] + a)[1..] == a && ([m] + b)[1..] == b;
  }

  lemma KeyOnlyLayout(mem: Bytes, pos: nat, ms: seq<Meta>, end: nat, key: Bytes, k: nat)
    requires PlainKeys(ms) && ms != [] && ms[0].Text() == [] && Reads(mem, pos, Print(ms)) && end == pos + |Print(ms)|
    requires key == ms[0].key.value && k == pos + 1 + |key|
    ensures Reads(mem, pos, [SEMICOLON] + key) && k <= end <= |mem|
    ensures if |ms| == 1 then k == end else k < end && mem[k] == SEMICOLON
  {
    var rest := ms[1..];
    assert PrintOne(ms[0]) == [SEMICOLON] + key;
    ReadsJoined(mem, pos, Print(ms), PrintOne(ms[0]), Print(rest), k);
    if |ms| > 1 {
      assert rest[0] == ms[1] && Print(rest)[0] == SEMICOLON;
      ReadsFirst(mem, k, Print(rest));
    }
  }

  lemma {:induction false} KeyOnlyParsed(mem: Bytes, pos: nat, ms: seq<Meta>, end: nat, key: Bytes, k: nat)
    requires ms != [] && ms[0].key == Some(key) && ms[0].Text() == [] && PlainKey(key)
    requires Reads(mem, pos, [SEMICOLON] + key) && k == pos + 1 + |key| <= end <= |mem|
    requires if |ms| == 1 then k == end else k < end && mem[k] == SEMICOLON
    ensures Parse(mem, pos, end) == ms <==> PlainValues(ms) && Separated(ms)
  {
    ParseBare(mem, pos, end, key);
    KeyOnlyRead(ms, Parse(mem, pos, end));
  }

  lemma KeyOnlyRead(ms: seq<Meta>, parsed: seq<Meta>)
    requires ms != [] && ms[0].key.Some? && ms[0].Text() == []
    requires if |ms| == 1 then parsed == [Meta(ms[0].key, None)] else parsed != [] && parsed[0].key != ms[0].key
    ensures parsed == ms <==> PlainValues(ms) && Separated(ms)
  {
    if |ms| == 1 {
      OnlyOne(ms);
    } else {
      assert ms[0].value == None || ms[0].value == Some([]);
    }
  }

  lemma OnlyOne(ms: seq<Meta>)
    requires |ms| == 1 && ms[0].key.Some? && ms[0].Text() == []
    ensures ms == [Meta(ms[0].key, None)] <==> PlainValues(ms) && Separated(ms)
  {}

  lemma ValuesTail(ms: seq<Meta>, rest: seq<Meta>)
    requires ms != [] && ms[0].Text() != [] && rest == ms[1..]
    ensures PlainValues(ms) && Separated(ms) <==> PlainValue(ms[0].Text()) && PlainValues(rest) && Separated(rest)
  {
    assert forall i :: 0 <= i < |rest| ==> rest[i] == ms[i + 1];
    if PlainValue(ms[0].Text()) && PlainValues(rest) && Separated(rest) {
      forall i | 0 <= i < |ms|
        ensures PlainValue(ms[i].Text()) && ms[i].value != Some([]) && (i < |ms| - 1 ==> ms[i].value != None)
      {
        if i > 0 { assert rest[i - 1].value != Some([]); }
      }
    }
  }

  // ---------------------------------------------------------------- the scanner's loops

  method ScanKey(mem: Bytes, p: nat, end: nat) returns (k: nat)
    requires p <= end <= |mem|
    ensures k == KeyEnd(mem, p, end)
  {
    k := p;
    while k < end && mem[k] != EQUALS
      invariant p <= k <= end && KeyEnd(mem, p, end) == KeyEnd(mem, k, end)
    {
      k := k + 1;
    }
  }

  method ScanValue(mem: Bytes, p: nat, end: nat) returns (v: nat)
    requires p <= end <= |mem|
    ensures v == ValueEnd(mem, p, end, 0)
  {
    var inQuote := 0;
    v := p;
    while v < end
      invariant p <= v <= end && 0 <= inQuote <= 2
      invariant ValueEnd(mem, p, end, 0) == ValueEnd(mem, v, end, inQuote)
    {
      if inQuote > 0 {
        if mem[v] == BACKSLASH {
          inQuote := 2;
        } else if mem[v] == QUOTE {
          inQuote := inQuote - 1;
        }
        if inQuote == 0 {
          return v + 1;
        }
      } else if mem[v] == QUOTE {
        inQuote := 1;
      } else if mem[v] == SEMICOLON {
        return;
      }
      v := v + 1;
    }
  }

  lemma Shift<T>(text: seq<T>, value: seq<T>, x: seq<T>, rest: seq<T>)
    requires text == value + (x + rest)
    ensures text == (value + x) + rest
  {}

  method DecodeValue(mem: Bytes, p: nat, end: nat) returns (value: Bytes)
    requires p <= end <= |mem|
    ensures value == ValueText(mem, p, end, 0)
  {
    ghost var text := ValueText(mem, p, end, 0);
    var inQuote := 0;
    var c := p;
    value := [];
    while c < end
      invariant p <= c <= end && 0 <= inQuote <= 2
      invariant text == value + ValueText(mem, c, end, inQuote)
    {
      var x: Bytes := [];
      if inQuote > 0 {
        if mem[c] == BACKSLASH {
          inQuote := 2;
        } else if mem[c] == QUOTE {
          inQuote := inQuote - 1;
          if inQuote > 0 {
            x := [QUOTE];
          }
        } else {
          x := [mem[c]];
        }
        if inQuote == 0 {
          return;
        }
      } else if mem[c] == QUOTE {
        inQuote := 1;
      } else if At(mem, end + (end - c)) == SEMICOLON {
        return;
      } else {
        x := [mem[c]];
      }
      c := c + 1;
      Shift(text, value, x, ValueText(mem, c, end, inQuote));
      value := value + x;
    }
  }

  /** One extension, from its semicolon on; nothing is left after the `last` one. */
  method ReadOne(mem: Bytes, p: nat, end: nat) returns (m: Meta, next: nat, last: bool)
    requires p < end <= |mem| && mem[p] == SEMICOLON
    ensures p < next <= end
    ensures Parse(mem, p, end) == [m] + (if last then [] else Parse(mem, next, end))
  {
    var k := ScanKey(mem, p + 1, end);
    var key := Some(mem[p + 1..k]);
    if k == end || k + 1 == end {
      return Meta(key, None), end, true;
    }
    var v := ScanValue(mem, k + 1, end);
    var value := DecodeValue(mem, k + 1, v);
    ParseStep(mem, p, end, k, v);
    return Meta(key, Some(value)), v, false;
  }

  /** `__enc_chunked_read_extentions`: the metadata spelled in a header, in order. */
  method ReadExtensions(mem: Bytes, start: nat, end: nat) returns (metas: seq<Meta>)
    requires start <= end <= |mem|
    ensures metas == Parse(mem, start, end)
  {
    ghost var text := Parse(mem, start, end);
    metas := [];
    var p := start;
    while p < end
      invariant start <= p <= end
      invariant text == metas + Parse(mem, p, end)
    {
      if mem[p] != SEMICOLON {
        break;
      }
      var m, next, last := ReadOne(mem, p, end);
      Shift(text, metas, [m], if last then [] else Parse(mem, next, end));
      metas := metas + [m];
      if last {
        return;
      }
      p := next;
    }
  }

  // ---------------------------------------------------------------- the printer's two passes

  function CountQuotes(v: Bytes): nat {
    if v == [] then 0 else CountQuotes(v[1..]) + (if v[0] == QUOTE then 1 else 0)
  }

  lemma {:induction false} EscapeLength(v: Bytes)
    ensures |Escape(v)| == |v| + CountQuotes(v)
  {
    if v != [] { EscapeLength(v[1..]); }
  }

  lemma {:induction false} EscapeAppend(v: Bytes, b: Byte)
    ensures Escape(v + [b]) == Escape(v) + EscapeByte(b)
  {
    if v != [] {
      assert (v + [b])[1..] == v[1..] + [b];
      EscapeAppend(v[1..], b);
    }
  }

  lemma {:induction false} CountAppend(v: Bytes, b: Byte)
    ensures CountQuotes(v + [b]) == CountQuotes(v) + (if b == QUOTE then 1 else 0)
  {
    if v != [] {
      assert (v + [b])[1..] == v[1..] + [b];
      CountAppend(v[1..], b);
    }
  }

  lemma {:induction false} PrintAppend(ms: seq<Meta>, m: Meta)
    ensures Print(ms + [m]) == Print(ms) + PrintOne(m)
  {
    if ms == [] {
      assert ms + [m] == [m] && Print([m][1..]) == [];
    } else {
      assert (ms + [m])[1..] == ms[1..] + [m];
      PrintAppend(ms[1..], m);
    }
  }

  /** `__enc_chunked_write_extensions_valuelen` */
  method ValueLength(v: Bytes) returns (n: nat)
    ensures n == |Escape(v)|
  {
    n := |v|;
    for i := 0 to |v|
      invariant n == |v| + CountQuotes(v[..i])
    {
      assert v[..i + 1] == v[..i] + [v[i]];
      CountAppend(v[..i], v[i]);
      if v[i] == QUOTE {
        n := n + 1;
      }
    }
    assert v[..|v|] == v;
    EscapeLength(v);
  }

  /** The sizing pass: room for every extension with quotes, signs and the terminator. */
  method BufferLength(ms: seq<Meta>) returns (n: nat)
    ensures n > |Print(ms)|
  {
    n := 1;
    for i := 0 to |ms|
      invariant n > |Print(ms[..i])|
    {
      assert ms[..i + 1] == ms[..i] + [ms[i]];
      PrintAppend(ms[..i], ms[i]);
      if ms[i].key.Some? {
        var l := ValueLength(ms[i].Text());
        n := n + 4 + |ms[i].key.value| + l;
      }
    }
    assert ms[..|ms|] == ms;
  }

  lemma {:induction false} PrintSplit(ms: seq<Meta>, i: nat)
    requires i <= |ms|
    ensures Print(ms) == Print(ms[..i]) + Print(ms[i..])
  {
    if i == 0 {
      assert ms[..0] == [] && ms[0..] == ms;
    } else {
      PrintSplit(ms[1..], i - 1);
      var a, b := ms[1..][..i - 1], ms[i..];
      assert ms[..i][1..] == a && ms[1..][i - 1..] == b && ms[..i][0] == ms[0];
      assert PrintOne(ms[0]) + (Print(a) + Print(b)) == (PrintOne(ms[0]) + Print(a)) + Print(b);
    }
  }

  /** Copies `s` into the buffer at `p`. */
  method Put(buf: array<Byte>, p: nat, s: Bytes) returns (q: nat)
    requires p + |s| <= buf.Length
    modifies buf
    ensures q == p + |s| && buf[..q] == old(buf[..p]) + s
  {
    for i := 0 to |s|
      invariant buf[..p + i] == old(buf[..p]) + s[..i]
    {
      buf[p + i] := s[i];
      assert s[..i + 1] == s[..i] + [s[i]];
      assert buf[..p + i + 1] == buf[..p + i] + [s[i]];
    }
    q := p + |s|;
    assert s[..|s|] == s;
  }

  lemma {:induction false} EscapeBound(v: Bytes, i: nat)
    requires i < |v|
    ensures |Escape(v[..i + 1])| <= |Escape(v)|
  {
    EscapeLength(v[..i + 1]);
    EscapeLength(v);
    CountPrefix(v, i + 1);
  }

  lemma {:induction false} CountPrefix(v: Bytes, i: nat)
    requires i <= |v|
    ensures CountQuotes(v[..i]) <= CountQuotes(v)
  {
    if i > 0 {
      CountPrefix(v[1..], i - 1);
      assert v[..i][1..] == v[1..][..i - 1];
    }
  }

  function EscapeByte(b: Byte): Bytes { if b == QUOTE then [BACKSLASH, QUOTE] else [b] }

  method PutEscaped(buf: array<Byte>, p: nat, b: Byte) returns (q: nat)
    requires p + |EscapeByte(b)| <= buf.Length
    modifies buf
    ensures q == p + |EscapeByte(b)| && buf[..q] == old(buf[..p]) + EscapeByte(b)
  {
    ghost var start := buf[..p];
    q := p;
    if b == QUOTE {
      q := Put(buf, q, [BACKSLASH]);
      assert (start + [BACKSLASH]) + [b] == start + [BACKSLASH, QUOTE];
    }
    q := Put(buf, q, [b]);
  }

  method PutAllEscaped(buf: array<Byte>, p: nat, v: Bytes) returns (q: nat)
    requires p + |Escape(v)| <= buf.Length
    modifies buf
    ensures q == p + |Escape(v)| && buf[..q] == old(buf[..p]) + Escape(v)
  {
    q := p;
    for i := 0 to |v|
      invariant q == p + |Escape(v[..i])| <= buf.Length && buf[..q] == old(buf[..p]) + Escape(v[..i])
    {
      assert v[..i + 1] == v[..i] + [v[i]];
      EscapeAppend(v[..i], v[i]);
      EscapeBound(v, i);
      q := PutEscaped(buf, q, v[i]);
    }
    assert v[..|v|] == v;
  }

  /** Writes a value between quotes, a backslash before every quote in it. */
  method PutValue(buf: array<Byte>, p: nat, v: Bytes) returns (q: nat)
    requires v != [] && p + |PrintValue(v)| <= buf.Length
    modifies buf
    ensures q == p + |PrintValue(v)| && buf[..q] == old(buf[..p]) + PrintValue(v)
  {
    ghost var start, e := buf[..p], Escape(v);
    q := Put(buf, p, [EQUALS, QUOTE]);
    q := PutAllEscaped(buf, q, v);
    q := Put(buf, q, [QUOTE]);
    Regroup(start, [EQUALS, QUOTE], e, [QUOTE]);
  }

  method PutOne(buf: array<Byte>, p: nat, m: Meta) returns (q: nat)
    requires p + |PrintOne(m)| <= buf.Length
    modifies buf
    ensures q == p + |PrintOne(m)| && buf[..q] == old(buf[..p]) + PrintOne(m)
  {
    q := p;
    if m.key.Some? {
      ghost var start, key, e := buf[..p], m.key.value, PrintValue(m.Text());
      q := Put(buf, q, [SEMICOLON]);
      q := Put(buf, q, m.key.value);
      if m.Text() != [] {
        q := PutValue(buf, q, m.Text());
      }
      Regroup(start, [SEMICOLON], key, e);
    }
  }

  lemma Regroup(a: Bytes, b: Bytes, c: Bytes, d: Bytes)
    ensures a + b + c + d == a + (b + c + d)
  {}

  /**
  `__enc_chunked_write_extensions`: the writing pass fills a buffer of the size the sizing pass asked
  for, terminator included.
  */
  method WriteExtensions(ms: seq<Meta>) returns (buf: array<Byte>, p: nat)
    ensures fresh(buf) && p < buf.Length && buf[..p] == Print(ms) && buf[p] == 0
  {
    var n := BufferLength(ms);
    buf := new Byte[n];
    p := 0;
    for i := 0 to |ms|
      invariant p == |Print(ms[..i])| < buf.Length && buf[..p] == Print(ms[..i])
    {
      assert ms[..i + 1] == ms[..i] + [ms[i]];
      PrintAppend(ms[..i], ms[i]);
      PrintSplit(ms, i + 1);
      p := PutOne(buf, p, ms[i]);
    }
    assert ms[..|ms|] == ms;
    buf[p] := 0;
  }
}
