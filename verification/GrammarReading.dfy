/** Exactly which extensions of the grammar the extension scanner reads as they are meant. */
module GrammarReading {
  import opened CTypes
  import opened ChunkedFormat
  import opened Extensions
  import opened ChunkGrammar

  // ---------------------------------------------------------------- quoted strings

  /** What the scanner keeps of the items: a quoted backslash is lost. */
  function Emitted(items: seq<Item>): Bytes {
    if items == [] then [] else (if items[0] == Pair(BACKSLASH) then [] else [items[0].b]) + Emitted(items[1..])
  }

  lemma {:induction false} EmittedOrLost(items: seq<Item>)
    ensures Pair(BACKSLASH) !in items ==> Emitted(items) == Unquoted(items)
    ensures Pair(BACKSLASH) in items ==> !PlainValue(Unquoted(items))
  {
    if items != [] {
      var rest := items[1..];
      EmittedOrLost(rest);
      assert items == [items[0]] + rest;
      var u := Unquoted(items);
      assert u[0] == items[0].b && u[1..] == Unquoted(rest);
      if Pair(BACKSLASH) in rest {
        var i :| 0 <= i < |u[1..]| && u[1..][i] == BACKSLASH;
        assert u[i + 1] == BACKSLASH;
      }
    }
  }

  /** From `i` to `j` inside quotes the scanner keeps `out` and looks no further. */
  ghost predicate Passes(mem: Bytes, i: nat, quote: nat, j: nat, quote': nat, out: Bytes, last: nat, end: nat)
    requires i <= j <= last <= end <= |mem|
  {
    && ValueEnd(mem, i, end, quote) == ValueEnd(mem, j, end, quote')
    && ValueText(mem, i, last, quote) == out + ValueText(mem, j, last, quote')
  }

  lemma PassesTrans(mem: Bytes, i: nat, q: nat, j: nat, q1: nat, k: nat, q2: nat, a: Bytes, b: Bytes,
                    last: nat, end: nat)
    requires i <= j <= k <= last <= end <= |mem|
    requires Passes(mem, i, q, j, q1, a, last, end) && Passes(mem, j, q1, k, q2, b, last, end)
    ensures Passes(mem, i, q, k, q2, a + b, last, end)
  {
    Shift(ValueText(mem, i, last, q), a, b, ValueText(mem, k, last, q2));
  }

  function ModeAfter(it: Item, quote: nat): nat { if it.Text? then quote else if it.b == QUOTE then 1 else 2 }
  function Kept(it: Item): Bytes { if it == Pair(BACKSLASH) then [] else [it.b] }

  lemma ReadItem(mem: Bytes, i: nat, it: Item, quote: nat, j: nat, last: nat, end: nat)
    requires IsItem(it) && 1 <= quote <= 2 && Reads(mem, i, SpellItem(it))
    requires j == i + |SpellItem(it)| <= last <= end <= |mem|
    ensures Passes(mem, i, quote, j, ModeAfter(it, quote), Kept(it), last, end)
  {
    assert mem[i..i + |SpellItem(it)|][0] == mem[i];
    if it.Pair? {
      assert mem[i..i + 2][1] == mem[i + 1];
      assert ValueText(mem, i, last, quote) == [] + ValueText(mem, i + 1, last, 2);
    }
  }

  lemma {:induction false} ReadItems(mem: Bytes, i: nat, items: seq<Item>, quote: nat, last: nat, end: nat, j: nat)
    requires IsItems(items) && 1 <= quote <= 2 && Reads(mem, i, SpellItems(items))
    requires j == i + |SpellItems(items)| <= last <= end <= |mem|
    ensures Passes(mem, i, quote, j, Mode(items, quote), Emitted(items), last, end)
    decreases |items|
  {
    if items != [] {
      var it, rest, m := items[0], items[1..], i + |SpellItem(items[0])|;
      ItemsTail(items);
      ReadsJoined(mem, i, SpellItems(items), SpellItem(it), SpellItems(rest), m);
      var q := ModeAfter(it, quote);
      ReadItem(mem, i, it, quote, m, last, end);
      ReadItems(mem, m, rest, q, last, end, j);
      PassesTrans(mem, i, quote, m, q, j, Mode(rest, q), Kept(it), Emitted(rest), last, end);
    }
  }

  /**
  A quoted string is read as it is meant if and only if its last quoted pair, if there is one, is
  `\"` and none is `\\`.
  */
  lemma {:induction false} QuotedRead(mem: Bytes, i: nat, items: seq<Item>, end: nat, next: nat)
    requires IsItems(items) && Reads(mem, i, [QUOTE] + (SpellItems(items) + [QUOTE]))
    requires next == i + 2 + |SpellItems(items)| <= end <= |mem|
    ensures var last := ValueEnd(mem, i, end, 0);
      && (ValueText(mem, i, last, 0) == Unquoted(items) <==> Mode(items, 1) == 1 && Pair(BACKSLASH) !in items)
      && (Mode(items, 1) == 1 ==> last == next)
  {
    var t, j := SpellItems(items), i + 1 + |SpellItems(items)|;
    ReadsFirst(mem, i, [QUOTE] + (t + [QUOTE]));
    assert ([QUOTE] + (t + [QUOTE]))[1..] == t + [QUOTE];
    ReadsParts(mem, i + 1, t, [QUOTE]);
    ReadsFirst(mem, j, [QUOTE]);
    WalkItems(items, 1);
    ReadItems(mem, i + 1, items, 1, end, end, j);
    var last := ValueEnd(mem, i, end, 0);
    assert last == ValueEnd(mem, j, end, Mode(items, 1));
    ClosingQuote(mem, j, end, Mode(items, 1));
    ReadItems(mem, i + 1, items, 1, last, end, j);
    ClosingText(mem, j, last, Mode(items, 1));
    EmittedOrLost(items);
    QuotedNeverBackslash(mem, i, last);
  }

  lemma ClosingQuote(mem: Bytes, j: nat, end: nat, quote: nat)
    requires j < end <= |mem| && mem[j] == QUOTE && 1 <= quote <= 2
    ensures ValueEnd(mem, j, end, quote) > j && (quote == 1 ==> ValueEnd(mem, j, end, quote) == j + 1)
  {}

  lemma ClosingText(mem: Bytes, j: nat, last: nat, quote: nat)
    requires j < last <= |mem| && mem[j] == QUOTE && 1 <= quote <= 2
    ensures ValueText(mem, j, last, quote) == [] <==> quote == 1
  {}

  // ---------------------------------------------------------------- tokens

  /** Text without quotes between `i` and `end`. */
  ghost predicate NoQuotes(mem: Bytes, i: nat, end: nat)
    requires i <= end <= |mem|
  {
    forall j :: i <= j < end ==> mem[j] != QUOTE
  }

  /** No semicolon stands behind `end` as far as the text before it is long. */
  ghost predicate NoSemicolonAhead(mem: Bytes, end: nat, length: nat) {
    forall j :: end < j <= end + length ==> At(mem, j) != SEMICOLON
  }

  /** A value without quotes is read whole if and only if no semicolon is where the scanner looks ahead. */
  lemma {:induction false} TokenRead(mem: Bytes, i: nat, end: nat)
    requires i <= end <= |mem| && NoQuotes(mem, i, end)
    ensures ValueText(mem, i, end, 0) == mem[i..end] <==> NoSemicolonAhead(mem, end, end - i)
    decreases end - i
  {
    if i < end {
      TokenRead(mem, i + 1, end);
      assert mem[i..end] == [mem[i]] + mem[i + 1..end];
      assert NoSemicolonAhead(mem, end, end - i) <==>
        NoSemicolonAhead(mem, end, end - i - 1) && At(mem, end + (end - i)) != SEMICOLON;
    }
  }

  lemma {:induction false} TokenEnds(mem: Bytes, i: nat, t: Bytes, end: nat)
    requires Reads(mem, i, t) && i + |t| <= end <= |mem|
    requires forall j :: 0 <= j < |t| ==> t[j] != QUOTE && t[j] != SEMICOLON
    requires i + |t| == end || mem[i + |t|] == SEMICOLON
    ensures ValueEnd(mem, i, end, 0) == i + |t|
    decreases |t|
  {
    if t != [] {
      ReadsFirst(mem, i, t);
      TokenEnds(mem, i + 1, t[1..], end);
    }
  }

  // ---------------------------------------------------------------- lists of extensions

  /** The value that ends at `next`, the last of its header or not, is read as it is meant. */
  ghost predicate ValueReadable(mem: Bytes, next: nat, v: Value, last: bool) {
    match v
    case NoValue => last
    case Token(t) => NoSemicolonAhead(mem, next, |t|)
    case Quoted(items) => Mode(items, 1) == 1 && Pair(BACKSLASH) !in items
  }

  ghost predicate Readable(mem: Bytes, pos: nat, es: seq<Extension>)
    decreases |es|
  {
    if es == [] then true
    else
      var next := pos + |Spell(es[0])|;
      ValueReadable(mem, next, es[0].value, |es| == 1) && Readable(mem, next, es[1..])
  }

  lemma {:induction false} SpellAllStarts(es: seq<Extension>)
    requires es != []
    ensures SpellAll(es) != [] && SpellAll(es)[0] == SEMICOLON
  {}

  /** What comes behind one extension: the end, or the semicolon of the next. */
  ghost predicate Bounded(mem: Bytes, next: nat, end: nat) {
    next <= end <= |mem| && (next < end ==> mem[next] == SEMICOLON)
  }

  lemma KeyRead(mem: Bytes, pos: nat, end: nat, name: Bytes, more: Bytes, k: nat)
    requires IsToken(name) && Reads(mem, pos, [SEMICOLON] + (name + more)) && k == pos + 1 + |name| < end <= |mem|
    requires more != [] && more[0] == EQUALS
    ensures mem[pos] == SEMICOLON && KeyEnd(mem, pos + 1, end) == k
    ensures mem[pos + 1..k] == name && Reads(mem, k + 1, more[1..])
  {
    ReadsParts(mem, pos, [SEMICOLON], name + more);
    ReadsParts(mem, pos + 1, name, more);
    ReadsFirst(mem, k, more);
    assert mem[pos..pos + 1][0] == SEMICOLON;
    KeyEndFinds(mem, pos + 1, end, name);
  }

  lemma {:induction false} NoValueRead(mem: Bytes, pos: nat, end: nat, name: Bytes, next: nat)
    requires IsToken(name) && Reads(mem, pos, [SEMICOLON] + name) && next == pos + 1 + |name| && Bounded(mem, next, end)
    ensures next == end ==> Parse(mem, pos, end) == [Meta(Some(name), None)]
    ensures next < end ==> Parse(mem, pos, end) != [] && Parse(mem, pos, end)[0].key != Some(name)
  {
    ParseBare(mem, pos, end, name);
  }

  /** An extension with a value: the key is read right, and the value if and only if it is readable. */
  lemma {:induction false} ValueRead(mem: Bytes, pos: nat, end: nat, e: Extension, next: nat, last: bool)
    requires IsExtension(e) && !e.value.NoValue? && Reads(mem, pos, Spell(e)) && next == pos + |Spell(e)|
    requires Bounded(mem, next, end)
    ensures ValueReadable(mem, next, e.value, last) ==>
      Parse(mem, pos, end) == [Meta(Some(e.name), MeaningOf(e.value))] + Parse(mem, next, end)
    ensures !ValueReadable(mem, next, e.value, last) ==>
      Parse(mem, pos, end) != [] && Parse(mem, pos, end)[0].value != MeaningOf(e.value)
  {
    var k, v := pos + 1 + |e.name|, SpellValue(e.value);
    ValueStarts(e.value);
    KeyRead(mem, pos, end, e.name, v, k);
    ValueAt(mem, k + 1, end, e.value, next, last);
    HeadRead(mem, pos, end, k, e.name, next, ValueReadable(mem, next, e.value, last), MeaningOf(e.value));
  }

  lemma HeadRead(mem: Bytes, pos: nat, end: nat, k: nat, name: Bytes, next: nat, right: bool, meaning: Option<Bytes>)
    requires pos < end <= |mem| && mem[pos] == SEMICOLON && KeyEnd(mem, pos + 1, end) == k && k + 1 < end && next <= end
    requires mem[pos + 1..k] == name
    requires var stop := ValueEnd(mem, k + 1, end, 0);
      if right then stop == next && Some(ValueText(mem, k + 1, stop, 0)) == meaning
      else Some(ValueText(mem, k + 1, stop, 0)) != meaning
    ensures right ==> Parse(mem, pos, end) == [Meta(Some(name), meaning)] + Parse(mem, next, end)
    ensures !right ==> Parse(mem, pos, end) != [] && Parse(mem, pos, end)[0].value != meaning
  {
    ParseStep(mem, pos, end, k, ValueEnd(mem, k + 1, end, 0));
  }

  lemma ValueStarts(v: Value)
    requires !v.NoValue? && (v.Token? ==> IsToken(v.text))
    ensures |SpellValue(v)| >= 2 && SpellValue(v)[0] == EQUALS
  {}

  lemma {:induction false} ValueAt(mem: Bytes, i: nat, end: nat, v: Value, next: nat, last: bool)
    requires v.Token? ==> IsToken(v.text)
    requires v.Quoted? ==> IsItems(v.items)
    requires !v.NoValue? && Reads(mem, i, SpellValue(v)[1..])
    requires next == i + |SpellValue(v)| - 1 && Bounded(mem, next, end)
    ensures i < end
    ensures var stop := ValueEnd(mem, i, end, 0);
      if ValueReadable(mem, next, v, last) then stop == next && Some(ValueText(mem, i, stop, 0)) == MeaningOf(v)
      else Some(ValueText(mem, i, stop, 0)) != MeaningOf(v)
  {
    if v.Token? {
      var t := v.text;
      assert ([EQUALS] + t)[1..] == t;
      TokenEnds(mem, i, t, end);
      assert forall j :: i <= j < next ==> mem[j] == mem[i..next][j - i];
      TokenRead(mem, i, next);
    } else {
      var t := SpellItems(v.items) + [QUOTE];
      assert ([EQUALS, QUOTE] + t)[1..] == [QUOTE] + t;
      QuotedRead(mem, i, v.items, end, next);
    }
  }

  lemma BoundedAfter(mem: Bytes, next: nat, rest: seq<Extension>, end: nat)
    requires Reads(mem, next, SpellAll(rest)) && end == next + |SpellAll(rest)|
    ensures Bounded(mem, next, end) && (next == end <==> rest == [])
  {
    if rest != [] {
      SpellAllStarts(rest);
      ReadsFirst(mem, next, SpellAll(rest));
    }
  }

  lemma {:induction false} ReadFirst(mem: Bytes, pos: nat, e: Extension, rest: seq<Extension>, next: nat, end: nat)
    requires IsExtension(e) && Reads(mem, pos, Spell(e)) && next == pos + |Spell(e)|
    requires Bounded(mem, next, end) && (next == end <==> rest == [])
    requires Parse(mem, next, end) == Meanings(rest) <==> Readable(mem, next, rest)
    ensures Parse(mem, pos, end) == [Meta(Some(e.name), MeaningOf(e.value))] + Meanings(rest) <==>
      ValueReadable(mem, next, e.value, rest == []) && Readable(mem, next, rest)
  {
    HeadOff(Meta(Some(e.name), MeaningOf(e.value)), Parse(mem, next, end), Meanings(rest));
    if e.value.NoValue? {
      assert Spell(e) == [SEMICOLON] + e.name;
      NoValueRead(mem, pos, end, e.name, next);
    } else {
      ValueRead(mem, pos, end, e, next, rest == []);
    }
  }

  lemma ReadableFirst(mem: Bytes, pos: nat, es: seq<Extension>, rest: seq<Extension>, next: nat)
    requires es != [] && rest == es[1..] && next == pos + |Spell(es[0])|
    ensures Readable(mem, pos, es) <==> ValueReadable(mem, next, es[0].value, rest == []) && Readable(mem, next, rest)
    ensures Meanings(es) == [Meta(Some(es[0].name), MeaningOf(es[0].value))] + Meanings(rest)
  {}

  /** The extensions of a header are read as they are meant if and only if every one is readable where it stands. */
  lemma {:induction false} ReadExactly(mem: Bytes, pos: nat, es: seq<Extension>, end: nat)
    requires AreExtensions(es) && Reads(mem, pos, SpellAll(es)) && end == pos + |SpellAll(es)|
    ensures Parse(mem, pos, end) == Meanings(es) <==> Readable(mem, pos, es)
    decreases |es|
  {
    if es != [] {
      var rest, next := es[1..], pos + |Spell(es[0])|;
      ExtensionsTail(es);
      ReadsJoined(mem, pos, SpellAll(es), Spell(es[0]), SpellAll(rest), next);
      BoundedAfter(mem, next, rest, end);
      ReadExactly(mem, next, rest, end);
      ReadFirst(mem, pos, es[0], rest, next, end);
      ReadableFirst(mem, pos, es, rest, next);
    }
  }
}
