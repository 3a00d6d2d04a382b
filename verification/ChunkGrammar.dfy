/**
Chunk headers as section 3.6.1 of RFC 2616 spells them, and exactly which of them the scan for the
end of a header and the scanner of the extensions read as they are meant.

  chunk-size *( ";" token [ "=" ( token | quoted-string ) ] ) CRLF
*/
module ChunkGrammar {
  import opened CTypes
  import opened ChunkedFormat
  import opened Extensions
  import opened HeaderScan

  /** What a quoted string is made of: a byte that stands for itself, or a backslash and any byte. */
  datatype Item = Text(b: Byte) | Pair(b: Byte)

  datatype Value = NoValue | Token(text: Bytes) | Quoted(items: seq<Item>)

  datatype Extension = Extension(name: Bytes, value: Value)

  datatype ChunkHeader = ChunkHeader(size: Bytes, exts: seq<Extension>)

  /** Neither a control nor a separator (section 2.2 of RFC 2616). */
  predicate TokenChar(b: Byte) {
    32 < b < 127 && b !in [34, 40, 41, 44, 47, 58, 59, 60, 61, 62, 63, 64, 91, 92, 93, 123, 125]
  }

  predicate IsToken(t: Bytes) { t != [] && forall i :: 0 <= i < |t| ==> TokenChar(t[i]) }

  predicate IsItem(it: Item) { it.Text? ==> it.b != QUOTE && it.b != BACKSLASH }

  predicate IsItems(items: seq<Item>) { forall i :: 0 <= i < |items| ==> IsItem(items[i]) }

  predicate IsExtension(e: Extension) {
    IsToken(e.name) && (e.value.Token? ==> IsToken(e.value.text)) && (e.value.Quoted? ==> IsItems(e.value.items))
  }

  predicate AreExtensions(es: seq<Extension>) { forall i :: 0 <= i < |es| ==> IsExtension(es[i]) }

  // ---------------------------------------------------------------- spelling and meaning

  function SpellItem(it: Item): Bytes { if it.Text? then [it.b] else [BACKSLASH, it.b] }

  function SpellItems(items: seq<Item>): Bytes {
    if items == [] then [] else SpellItem(items[0]) + SpellItems(items[1..])
  }

  function SpellValue(v: Value): Bytes {
    match v
    case NoValue => []
    case Token(t) => [EQUALS] + t
    case Quoted(items) => [EQUALS, QUOTE] + (SpellItems(items) + [QUOTE])
  }

  function Spell(e: Extension): Bytes { [SEMICOLON] + (e.name + SpellValue(e.value)) }

  function SpellAll(es: seq<Extension>): Bytes {
    if es == [] then [] else Spell(es[0]) + SpellAll(es[1..])
  }

  function SpellHeader(h: ChunkHeader): Bytes { h.size + SpellAll(h.exts) + CRLF }

  /** The string a quoted string quotes. */
  function Unquoted(items: seq<Item>): Bytes {
    if items == [] then [] else [items[0].b] + Unquoted(items[1..])
  }

  function MeaningOf(v: Value): Option<Bytes> {
    match v
    case NoValue => None
    case Token(t) => Some(t)
    case Quoted(items) => Some(Unquoted(items))
  }

  function Meanings(es: seq<Extension>): seq<Meta> {
    if es == [] then [] else [Meta(Some(es[0].name), MeaningOf(es[0].value))] + Meanings(es[1..])
  }

  // ---------------------------------------------------------------- the end of the header

  /** `quote` after the items of a quoted string: 1 unless its last quoted pair is other than `\"`. */
  function Mode(items: seq<Item>, quote: nat): nat {
    if items == [] then quote
    else Mode(items[1..], if items[0].Text? then quote else if items[0].b == QUOTE then 1 else 2)
  }

  lemma {:induction false} WalkItems(items: seq<Item>, quote: nat)
    requires IsItems(items) && 1 <= quote <= 2
    ensures Walk(Lex(quote, false), SpellItems(items)) == Lex(Mode(items, quote), false)
    ensures 1 <= Mode(items, quote) <= 2
    decreases |items|
  {
    if items != [] {
      ItemsTail(items);
      WalkItem(items[0], quote, SpellItems(items[1..]));
      WalkItems(items[1..], if items[0].Text? then quote else if items[0].b == QUOTE then 1 else 2);
    }
  }

  lemma WalkItem(it: Item, quote: nat, more: Bytes)
    requires IsItem(it) && 1 <= quote <= 2
    ensures Walk(Lex(quote, false), SpellItem(it) + more) ==
      Walk(Lex(if it.Text? then quote else if it.b == QUOTE then 1 else 2, false), more)
  {
    var t := SpellItem(it) + more;
    if it.Text? {
      assert t[1..] == more;
    } else {
      assert t[1..][1..] == more;
    }
  }

  lemma ItemsTail(items: seq<Item>)
    requires IsItems(items) && items != []
    ensures IsItem(items[0]) && IsItems(items[1..])
  {
    assert forall i :: 0 <= i < |items[1..]| ==> items[1..][i] == items[i + 1];
  }

  /** What a scan that is out of step reads outside quotes: the items up to the first `\"`, if there is one. */
  function Exposed(items: seq<Item>): Bytes {
    if items == [] then []
    else if items[0] == Pair(QUOTE) then [BACKSLASH]
    else SpellItem(items[0]) + Exposed(items[1..])
  }

  predicate HasQuotePair(items: seq<Item>) { Pair(QUOTE) in items }

  /** Whether the scan is out of step (inside quotes where it should be outside) after a value. */
  function OutOfStep(off: bool, v: Value): bool {
    if !v.Quoted? then off
    else if !off then Mode(v.items, 1) == 2
    else !HasQuotePair(v.items) || Mode(v.items, 1) == 2
  }

  ghost predicate HasCrLf(t: Bytes) { exists i :: 0 <= i < |t| - 1 && t[i] == CR && t[i + 1] == LF }

  /**
  The scan comes to the end of these extensions in step: at the end it is not off, and while it was,
  it met no CRLF that it took for the end.
  */
  ghost predicate InStep(off: bool, es: seq<Extension>)
    decreases |es|
  {
    if es == [] then !off
    else
      && (off && es[0].value.Quoted? ==> !HasCrLf(Exposed(es[0].value.items)))
      && InStep(OutOfStep(off, es[0].value), es[1..])
  }

  /** With `cr` saying that a CR came just before. */
  ghost predicate Ends(cr: bool, t: Bytes) { HasCrLf(t) || (cr && t != [] && t[0] == LF) }

  lemma EndsStep(cr: bool, b: Byte, t: Bytes)
    ensures Ends(cr, [b] + t) <==> (cr && b == LF) || Ends(b == CR, t)
  {
    var u := [b] + t;
    if HasCrLf(t) {
      var i :| 0 <= i < |t| - 1 && t[i] == CR && t[i + 1] == LF;
      assert u[i + 1] == CR && u[i + 1 + 1] == LF;
    }
    if HasCrLf(u) {
      var i :| 0 <= i < |u| - 1 && u[i] == CR && u[i + 1] == LF;
      if i > 0 { assert t[i - 1] == CR && t[i - 1 + 1] == LF; }
    }
    if b == CR && t != [] && t[0] == LF {
      assert u[0] == CR && u[0 + 1] == LF;
    }
  }

  /** Items met out of step: the scan reads them outside quotes until a `\"` opens one for it. */
  lemma {:induction false} WalkExposed(items: seq<Item>, cr: bool)
    requires IsItems(items)
    ensures var l := Walk(Lex(0, cr), SpellItems(items));
      if Ends(cr, Exposed(items)) then l == Done
      else if HasQuotePair(items) then l == Lex(Mode(items, 1), false) else Outside(l)
    decreases |items|
  {
    if items != [] {
      var it, rest := items[0], items[1..];
      ItemsTail(items);
      WalkFirst(it, SpellItems(rest), cr);
      if it == Pair(QUOTE) {
        WalkItems(rest, 1);
        assert Exposed(items) == [BACKSLASH];
      } else if cr && it == Text(LF) {
        WalkDone(SpellItems(rest));
        EndsStep(cr, it.b, Exposed(rest));
      } else {
        WalkExposed(rest, it.b == CR);
        ExposedFirst(items, cr);
        assert HasQuotePair(items) <==> HasQuotePair(rest) by { assert items == [it] + rest; }
        ModeOfQuotePair(rest);
      }
    }
  }

  lemma WalkFirst(it: Item, more: Bytes, cr: bool)
    requires IsItem(it)
    ensures Walk(Lex(0, cr), SpellItem(it) + more) ==
      if it == Pair(QUOTE) then Walk(Lex(1, false), more)
      else if cr && it == Text(LF) then Walk(Done, more)
      else Walk(Lex(0, it.b == CR), more)
  {
    var t := SpellItem(it) + more;
    if it.Text? {
      assert t[1..] == more;
    } else {
      assert t[1..][1..] == more;
    }
  }

  lemma ExposedFirst(items: seq<Item>, cr: bool)
    requires IsItems(items) && items != [] && items[0] != Pair(QUOTE) && !(cr && items[0] == Text(LF))
    ensures Ends(cr, Exposed(items)) <==> Ends(items[0].b == CR, Exposed(items[1..]))
  {
    var it, e := items[0], Exposed(items[1..]);
    if it.Text? {
      EndsStep(cr, it.b, e);
    } else {
      EndsPair(cr, it.b, e, Exposed(items));
    }
  }

  lemma EndsPair(cr: bool, b: Byte, e: Bytes, t: Bytes)
    requires t == [BACKSLASH, b] + e
    ensures Ends(cr, t) <==> Ends(b == CR, e)
  {
    assert t == [BACKSLASH] + ([b] + e);
    EndsStep(cr, BACKSLASH, [b] + e);
    EndsStep(false, b, e);
  }

  /** Where a `\"` has been, it no longer matters how the string was entered. */
  lemma {:induction false} ModeOfQuotePair(items: seq<Item>)
    ensures HasQuotePair(items) ==> Mode(items, 1) == Mode(items, 2)
  {
    if items != [] && items[0].Text? {
      assert items == [items[0]] + items[1..];
      ModeOfQuotePair(items[1..]);
    }
  }

  function In(off: bool): Lex { Lex(if off then 1 else 0, false) }

  lemma TokenDull(t: Bytes)
    requires IsToken(t)
    ensures Dull(t) && Dull([EQUALS] + t) && Dull([SEMICOLON] + t)
  {}

  lemma WalkQuote(l: Lex)
    requires l.Lex? && 0 <= l.quote <= 2
    ensures Walk(l, [QUOTE]) == if l.quote == 0 then Lex(1, false) else Lex(l.quote - 1, false)
  {
    assert [QUOTE][1..] == [];
  }

  lemma WalkOpening(off: bool)
    ensures Walk(In(off), [EQUALS, QUOTE]) == In(!off)
  {
    var t := [EQUALS, QUOTE];
    assert t[1..] == [QUOTE];
    WalkQuote(In(off));
  }

  /** What one extension does to the scan. */
  ghost function AfterValue(off: bool, v: Value): Lex {
    if off && v.Quoted? && HasCrLf(Exposed(v.items)) then Done else In(OutOfStep(off, v))
  }

  lemma {:induction false} WalkQuoted(off: bool, items: seq<Item>)
    requires IsItems(items)
    ensures Walk(In(off), SpellValue(Quoted(items))) == AfterValue(off, Quoted(items))
  {
    var t := SpellItems(items);
    WalkParts(In(off), [EQUALS, QUOTE], t + [QUOTE]);
    WalkOpening(off);
    WalkParts(In(!off), t, [QUOTE]);
    if off {
      WalkExposed(items, false);
      if HasCrLf(Exposed(items)) { WalkDone([QUOTE]); }
    }
    WalkItems(items, 1);
    if Walk(In(!off), t).Lex? { WalkQuote(Walk(In(!off), t)); }
  }

  lemma {:induction false} WalkExtension(off: bool, e: Extension)
    requires IsExtension(e)
    ensures Walk(In(off), Spell(e)) == AfterValue(off, e.value)
  {
    var a, v := [SEMICOLON] + e.name, SpellValue(e.value);
    assert Spell(e) == a + v;
    WalkParts(In(off), a, v);
    TokenDull(e.name);
    WalkDull(In(off), a);
    match e.value
    case NoValue =>
    case Token(t) =>
      TokenDull(t);
      WalkDull(In(off), v);
    case Quoted(items) => WalkQuoted(off, items);
  }

  lemma ExtensionsTail(es: seq<Extension>)
    requires AreExtensions(es) && es != []
    ensures IsExtension(es[0]) && AreExtensions(es[1..])
  {
    assert forall i :: 0 <= i < |es[1..]| ==> es[1..][i] == es[i + 1];
  }

  lemma {:induction false} WalkAll(off: bool, es: seq<Extension>)
    requires AreExtensions(es)
    ensures Outside(Walk(In(off), SpellAll(es))) <==> InStep(off, es)
    decreases |es|
  {
    if es != [] {
      ExtensionsTail(es);
      WalkParts(In(off), Spell(es[0]), SpellAll(es[1..]));
      WalkExtension(off, es[0]);
      WalkAll(OutOfStep(off, es[0].value), es[1..]);
      WalkDone(SpellAll(es[1..]));
    }
  }

  /** The scan finds the end of a header of the grammar if and only if it comes there in step. */
  lemma {:induction false} HeaderEndsExactly(h: ChunkHeader, rest: Bytes)
    requires IsHex(h.size) && AreExtensions(h.exts)
    ensures FindHeader(SpellHeader(h) + rest) == Header(|h.size|, |SpellHeader(h)| - 1) <==> InStep(false, h.exts)
  {
    var p := SpellAll(h.exts);
    HeaderEnds(h.size, p, rest, SpellHeader(h) + rest);
    WalkAll(false, h.exts);
  }

  // ---------------------------------------------------------------- in step, in terms of quoted pairs

  function Pairs(items: seq<Item>): Bytes {
    if items == [] then [] else (if items[0].Pair? then [items[0].b] else []) + Pairs(items[1..])
  }

  function PairsOf(v: Value): Bytes { if v.Quoted? then Pairs(v.items) else [] }

  function AllPairs(es: seq<Extension>): Bytes { if es == [] then [] else PairsOf(es[0].value) + AllPairs(es[1..]) }

  lemma {:induction false} ModeIsLastPair(items: seq<Item>, quote: nat)
    requires 1 <= quote <= 2
    ensures Mode(items, quote) ==
      if Pairs(items) == [] then quote else if Pairs(items)[|Pairs(items)| - 1] == QUOTE then 1 else 2
    ensures HasQuotePair(items) <==> QUOTE in Pairs(items)
    decreases |items|
  {
    if items != [] {
      assert items == [items[0]] + items[1..];
      ModeIsLastPair(items[1..], if items[0].Text? then quote else if items[0].b == QUOTE then 1 else 2);
    }
  }

  /** Out of step after these pairs: the last one decides, if there is one. */
  predicate OffAfter(off: bool, pairs: Bytes) { if pairs == [] then off else pairs[|pairs| - 1] != QUOTE }

  lemma OutOfStepIsLastPair(off: bool, v: Value)
    ensures OutOfStep(off, v) == OffAfter(off, PairsOf(v))
  {
    if v.Quoted? { ModeIsLastPair(v.items, 1); }
  }

  lemma OffAfterParts(off: bool, a: Bytes, b: Bytes)
    ensures OffAfter(OffAfter(off, a), b) == OffAfter(off, a + b)
  {}

  lemma {:induction false} ExposedIsPart(items: seq<Item>)
    ensures Exposed(items) <= SpellItems(items)
  {
    if items != [] { ExposedIsPart(items[1..]); }
  }

  lemma ExposedCrLf(items: seq<Item>)
    requires !HasCrLf(SpellItems(items))
    ensures !HasCrLf(Exposed(items))
  {
    ExposedIsPart(items);
    var e, t := Exposed(items), SpellItems(items);
    assert forall i :: 0 <= i < |e| ==> e[i] == t[i];
  }

  /** No quoted string has a CRLF in it. */
  ghost predicate OneLine(es: seq<Extension>) {
    forall i :: 0 <= i < |es| && es[i].value.Quoted? ==> !HasCrLf(SpellItems(es[i].value.items))
  }

  lemma {:induction false} InStepIsLastPair(off: bool, es: seq<Extension>)
    requires OneLine(es)
    ensures InStep(off, es) <==> !OffAfter(off, AllPairs(es))
    decreases |es|
  {
    if es != [] {
      assert OneLine(es[1..]) by { assert forall i :: 0 <= i < |es[1..]| ==> es[1..][i] == es[i + 1]; }
      if es[0].value.Quoted? { ExposedCrLf(es[0].value.items); }
      OutOfStepIsLastPair(off, es[0].value);
      OffAfterParts(off, PairsOf(es[0].value), AllPairs(es[1..]));
      InStepIsLastPair(OutOfStep(off, es[0].value), es[1..]);
    }
  }

  /**
  If no quoted string runs over a line end, the end of the header is found if and only if the last
  quoted pair in the header, if there is any, is `\"`.
  */
  lemma {:induction false} HeaderEndsByLastPair(h: ChunkHeader, rest: Bytes)
    requires IsHex(h.size) && AreExtensions(h.exts) && OneLine(h.exts)
    ensures FindHeader(SpellHeader(h) + rest) == Header(|h.size|, |SpellHeader(h)| - 1) <==>
      AllPairs(h.exts) == [] || AllPairs(h.exts)[|AllPairs(h.exts)| - 1] == QUOTE
  {
    HeaderEndsExactly(h, rest);
    InStepIsLastPair(false, h.exts);
  }
}
