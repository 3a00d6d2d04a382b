/** Headers and metadata that are not read as they are meant. */
module HeaderExamples {
  import opened CTypes
  import opened ChunkedFormat
  import opened Extensions
  import opened HeaderScan
  import opened ChunkGrammar
  import opened GrammarReading
  import opened ChunkedWriter

  /** `a="\y"`: the backslash keeps the scan inside the quotes, and the end of the header is missed. */
  lemma BackslashHidesEnd(rest: Bytes)
    ensures var h := ChunkHeader([49], [Extension([97], Quoted([Pair(121)]))]);
      IsHex(h.size) && AreExtensions(h.exts) && FindHeader(SpellHeader(h) + rest) != Header(1, |SpellHeader(h)| - 1)
  {
    var es := [Extension([97], Quoted([Pair(121)]))];
    assert Mode([Pair(121)], 1) == 2 by { assert [Pair(121)][1..] == []; }
    assert !InStep(true, es[1..]) && OutOfStep(false, es[0].value);
    HeaderEndsExactly(ChunkHeader([49], es), rest);
  }

  /** `a="\y";b="\""`: the second string brings the scan back in step, and the end is found after all. */
  lemma BackInStep(rest: Bytes)
    ensures var h := ChunkHeader([49], [Extension([97], Quoted([Pair(121)])), Extension([98], Quoted([Pair(QUOTE)]))]);
      IsHex(h.size) && AreExtensions(h.exts) && FindHeader(SpellHeader(h) + rest) == Header(1, |SpellHeader(h)| - 1)
  {
    var y, q := [Pair(121)], [Pair(QUOTE)];
    var es := [Extension([97], Quoted(y)), Extension([98], Quoted(q))];
    OneItem(Pair(121));
    OneItem(Pair(QUOTE));
    TwoExtensions(es, y, q);
    TwoPairs(es);
    HeaderEndsExactly(ChunkHeader([49], es), rest);
  }

  lemma TwoPairs(es: seq<Extension>)
    requires es == [Extension([97], Quoted([Pair(121)])), Extension([98], Quoted([Pair(QUOTE)]))]
    ensures AreExtensions(es) && IsHex([49])
  {}

  lemma OneItem(it: Item)
    requires it.Pair?
    ensures Mode([it], 1) == (if it.b == QUOTE then 1 else 2) && (it.b == QUOTE ==> Exposed([it]) == [BACKSLASH])
  {
    var items := [it];
    assert items[1..] == [];
  }

  lemma TwoExtensions(es: seq<Extension>, y: seq<Item>, q: seq<Item>)
    requires |es| == 2 && es[0].value == Quoted(y) && es[1].value == Quoted(q)
    requires Mode(y, 1) == 2 && Mode(q, 1) == 1 && q == [Pair(QUOTE)] && Exposed(q) == [BACKSLASH]
    ensures InStep(false, es)
  {
    assert q[0] == Pair(QUOTE) && HasQuotePair(q) && !HasCrLf(Exposed(q));
    assert es[1..][0] == es[1] && InStep(false, es[1..][1..]);
    assert InStep(true, es[1..]);
  }

  lemma TwoItems(a: Item, b: Item)
    requires a.Pair? && b == Pair(QUOTE)
    ensures Mode([a, b], 1) == 1 && |SpellItems([a, b])| == 4
  {
    var items := [a, b];
    var rest := items[1..];
    var none := rest[1..];
    assert rest == [b] && none == [];
    assert Mode(none, 1) == 1 && SpellItems(none) == [];
    assert Mode(rest, 1) == 1 && Mode(rest, 2) == 1 && |SpellItems(rest)| == 2;
  }

  /** `"\\\""`: the end of the header is found, but a quoted backslash is lost from the value. */
  lemma QuotedBackslashLost(mem: Bytes, i: nat, end: nat)
    requires Reads(mem, i, [QUOTE] + (SpellItems([Pair(BACKSLASH), Pair(QUOTE)]) + [QUOTE])) && i + 6 <= end <= |mem|
    ensures var items := [Pair(BACKSLASH), Pair(QUOTE)];
      Mode(items, 1) == 1 && ValueText(mem, i, ValueEnd(mem, i, end, 0), 0) != Unquoted(items)
  {
    var items := [Pair(BACKSLASH), Pair(QUOTE)];
    TwoItems(Pair(BACKSLASH), Pair(QUOTE));
    assert items[0] in items;
    QuotedRead(mem, i, items, end, i + 6);
  }

  /** `1;a=bc` with a body that begins with a semicolon: the value is cut short by the body. */
  lemma TokenCutShort()
    ensures var mem := [49] + [SEMICOLON, 97, EQUALS, 98, 99] + CRLF + ([SEMICOLON] + CRLF);
      && TakeHeader(mem) == First(Some(1), [SEMICOLON, 97, EQUALS, 98, 99], [SEMICOLON] + CRLF)
      && Parse(mem, 1, 6) == [Meta(Some([97]), Some([]))]
  {
    var text := [SEMICOLON, 97, EQUALS, 98, 99];
    var mem := [49] + text + CRLF + ([SEMICOLON] + CRLF);
    assert Dull(text);
    WalkDull(START, text);
    HeaderEnds([49], text, [SEMICOLON] + CRLF, mem);
    assert [49][..0] == [] && HexValue([49]) == 1;
    TakenExactly([49], text, [SEMICOLON] + CRLF, mem, 1);
    assert mem[1] == SEMICOLON && mem[2] == 97 && mem[3] == EQUALS;
    assert mem[4] == 98 && mem[5] == 99 && mem[8] == SEMICOLON;
    assert KeyEnd(mem, 2, 6) == 3 && mem[2..3] == [97];
    assert ValueEnd(mem, 6, 6, 0) == 6 && ValueEnd(mem, 5, 6, 0) == 6 && ValueEnd(mem, 4, 6, 0) == 6;
    assert At(mem, 6 + 2) == SEMICOLON && ValueText(mem, 4, 6, 0) == [];
    ParseStep(mem, 1, 6, 3, 6);
  }

  /** A printed value with a backslash in it: with `\b` the end of the header is missed. */
  lemma PrintedBackslashHidesEnd()
    ensures !Settled(Print([Meta(Some([97]), Some([BACKSLASH, 98]))]))
  {
    var v := [BACKSLASH, 98];
    var m := Meta(Some([97]), Some(v));
    assert v[1..] == [98] && [98][1..] == [];
    assert QuoteAfter(v, 1) == 2;
    WalkEscaped(v, 1);
    var p := [SEMICOLON, 97, EQUALS, QUOTE];
    assert Print([m]) == PrintOne(m) + Print([m][1..]) == p + (Escape(v) + [QUOTE]);
    WalkParts(START, p, Escape(v) + [QUOTE]);
    assert p == [SEMICOLON, 97] + [EQUALS, QUOTE];
    WalkParts(START, [SEMICOLON, 97], [EQUALS, QUOTE]);
    WalkDull(START, [SEMICOLON, 97]);
    WalkOpening(false);
    WalkParts(Lex(1, false), Escape(v), [QUOTE]);
    WalkQuote(Lex(2, false));
  }

  /** With a backslash and a quote behind it the end is found, but the value is not read back. */
  lemma PrintedBackslashLost(mem: Bytes, pos: nat, end: nat)
    requires Reads(mem, pos, Print([Meta(Some([97]), Some([BACKSLASH, QUOTE]))]))
    requires end == pos + |Print([Meta(Some([97]), Some([BACKSLASH, QUOTE]))])|
    ensures var ms := [Meta(Some([97]), Some([BACKSLASH, QUOTE]))];
      Settled(Print(ms)) && Parse(mem, pos, end) != ms
  {
    var v := [BACKSLASH, QUOTE];
    var ms := [Meta(Some([97]), Some(v))];
    assert SafeValue(v) by { assert v[1] == QUOTE; }
    SafeSettles(ms);
    assert v[0] == BACKSLASH && !PlainValue(ms[0].Text());
    ParsePrint(mem, pos, ms, end);
  }

  /** `;a;b="c"`, printed from a key without a value and a key with one, is read as the one key `a;b`. */
  lemma KeySwallows()
    ensures var text := [SEMICOLON, 97, SEMICOLON, 98, EQUALS, QUOTE, 99, QUOTE];
      && Print([Meta(Some([97]), None), Meta(Some([98]), Some([99]))]) == text
      && Parse(text, 0, 8) == [Meta(Some([97, SEMICOLON, 98]), Some([99]))]
  {
    var text := [SEMICOLON, 97, SEMICOLON, 98, EQUALS, QUOTE, 99, QUOTE];
    PrintTwo();
    assert KeyEnd(text, 4, 8) == KeyEnd(text, 3, 8) == KeyEnd(text, 2, 8) == KeyEnd(text, 1, 8) == 4;
    assert text[1..4] == [97, SEMICOLON, 98];
    assert ValueEnd(text, 7, 8, 1) == 8 && ValueEnd(text, 6, 8, 1) == 8 && ValueEnd(text, 5, 8, 0) == 8;
    assert ValueText(text, 7, 8, 1) == [] && ValueText(text, 6, 8, 1) == [99] && ValueText(text, 5, 8, 0) == [99];
    ParseStep(text, 0, 8, 4, 8);
  }

  lemma PrintTwo()
    ensures Print([Meta(Some([97]), None), Meta(Some([98]), Some([99]))]) ==
      [SEMICOLON, 97, SEMICOLON, 98, EQUALS, QUOTE, 99, QUOTE]
  {
    var a, b := Meta(Some([97]), None), Meta(Some([98]), Some([99]));
    var nothing: Bytes := [];
    assert Escape([99][1..]) == nothing && Escape([99]) == [99];
    assert PrintOne(a) == [SEMICOLON, 97] && PrintOne(b) == [SEMICOLON, 98, EQUALS, QUOTE, 99, QUOTE];
    assert [a, b][1..] == [b] && [b][1..] == [] && Print([b]) == PrintOne(b) + nothing;
  }

  // ---------------------------------------------------------------- in plain bytes

  /** `2;a="b"`, CRLF, two bytes and CRLF: what the writer makes of a chunk with one piece of metadata. */
  lemma ChunkInBytes()
    ensures Encoded(Chunk([Meta(Some([97]), Some([98]))], [120, 121], false)) ==
      [50, 59, 97, 61, 34, 98, 34, 13, 10, 120, 121, 13, 10]
    ensures Encoded(Chunk([], [], true)) == [48, 13, 10, 13, 10, 13, 10]
  {
    var m := Meta(Some([97]), Some([98]));
    assert Escape([98][1..]) == [] && Escape([98]) == [98];
    assert PrintOne(m) == [59, 97, 61, 34, 98, 34] && Print([m][1..]) == [];
    assert Print([m]) == [59, 97, 61, 34, 98, 34];
    assert HexPrint(2) == [50] && HexPrint(0) == [48] && Print([]) == [];
  }

  /** A quote in a value is printed behind a backslash. */
  lemma QuoteInBytes()
    ensures Print([Meta(Some([97]), Some([34]))]) == [59, 97, 61, 34, 92, 34, 34]
  {
    var m := Meta(Some([97]), Some([34]));
    assert Escape([34][1..]) == [] && Escape([34]) == [92, 34];
    assert PrintOne(m) == [59, 97, 61, 34, 92, 34, 34] && Print([m][1..]) == [];
  }

  /** `1;a=b`, CRLF: a header is taken off with its extensions. */
  lemma HeaderInBytes(rest: Bytes)
    ensures TakeHeader([49, 59, 97, 61, 98, 13, 10] + rest) == First(Some(1), [59, 97, 61, 98], rest)
  {
    var text: Bytes := [59, 97, 61, 98];
    var s := [49] + text + CRLF + rest;
    assert s == [49, 59, 97, 61, 98, 13, 10] + rest;
    assert Dull(text);
    WalkDull(START, text);
    HeaderEnds([49], text, rest, s);
    assert [49][..0] == [] && HexValue([49]) == 1;
    TakenExactly([49], text, rest, s, 1);
  }
}
