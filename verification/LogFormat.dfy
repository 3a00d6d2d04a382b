/**
The log's bounded formatter.  Its own conversion, `%H`, prints any string as harmless text: what is
not printable comes out as a backslash, an x and two hexadecimal digits.
*/
module LogFormat {
  import opened CTypes

  const PERCENT: Byte := 37
  const DOUBLE_QUOTE: Byte := 34
  const BACKQUOTE: Byte := 96
  const BACKSLASH: Byte := 92
  const SPACE: Byte := 32
  const SHARP: Byte := 35
  const STAR: Byte := 42
  const DOT: Byte := 46
  const DASH: Byte := 45
  const LETTER_X: Byte := 120
  const NULL_TEXT: CString := [40, 110, 117, 108, 108, 41]

  // ---------------------------------------------------------------- escaping

  /** `char` is signed. */
  function SignedChar(b: Byte): int { if b < 128 then b else b - 256 }

  /** `__vsnprintf__is_print` */
  predicate IsPrint(b: Byte, allowSpace: bool) {
    var c := SignedChar(b);
    !((c <= DOUBLE_QUOTE || c == BACKQUOTE || c == BACKSLASH) && !(allowSpace && c == SPACE))
  }

  function EscapeByte(b: Byte): Bytes { [BACKSLASH, LETTER_X, HexDigit(b / 16), HexDigit(b % 16)] }

  /** A string in harmless text, whatever room that takes. */
  function Escape(a: CString, space: bool): Bytes {
    if a == [] then [] else (if IsPrint(a[0], space) then [a[0]] else EscapeByte(a[0])) + Escape(Tail(a), space)
  }

  function Tail(a: CString): CString
    requires a != []
  {
    assert forall i :: 0 <= i < |a[1..]| ==> a[1..][i] == a[i + 1];
    a[1..]
  }

  /** Undoes the escapes. */
  function Unescape(s: Bytes): Bytes
    decreases |s|
  {
    if |s| >= 4 && s[0] == BACKSLASH && s[1] == LETTER_X && HexOf(s[2]) >= 0 && HexOf(s[3]) >= 0
    then [HexOf(s[2]) * 16 + HexOf(s[3])] + Unescape(s[4..])
    else if s == [] then []
    else [s[0]] + Unescape(s[1..])
  }

  lemma UnescapeByte(b: Byte, rest: Bytes)
    ensures Unescape(EscapeByte(b) + rest) == [b] + Unescape(rest)
  {
    var s := EscapeByte(b) + rest;
    assert s[4..] == rest;
    assert HexOf(s[2]) == b / 16 && HexOf(s[3]) == b % 16;
  }

  /** Escaping loses nothing. */
  lemma {:induction false} UnescapeEscape(a: CString, space: bool)
    ensures Unescape(Escape(a, space)) == a
  {
    if a != [] {
      var rest := Escape(Tail(a), space);
      UnescapeEscape(Tail(a), space);
      if IsPrint(a[0], space) {
        assert a[0] != BACKSLASH;
        assert ([a[0]] + rest)[1..] == rest;
      } else {
        UnescapeByte(a[0], rest);
      }
      assert a == [a[0]] + Tail(a);
    }
  }

  /** Escaped text has no quote, backquote or control byte in it. */
  lemma {:induction false} EscapeHarmless(a: CString, space: bool, i: nat)
    requires i < |Escape(a, space)|
    ensures var b := Escape(a, space)[i];
      SignedChar(b) > 31 && b != DOUBLE_QUOTE && b != BACKQUOTE && (b == SPACE ==> space)
  {
    var first := if IsPrint(a[0], space) then [a[0]] else EscapeByte(a[0]);
    if i >= |first| {
      EscapeHarmless(Tail(a), space, i - |first|);
    }
  }

  // ---------------------------------------------------------------- one conversion

  /** The text of a `%H` body in a block of length `len`: a dot stands for what has no room to be escaped. */
  function Body(a: CString, space: bool, len: int): Bytes
    decreases |a|
  {
    if a == [] || len == 0 then []
    else if IsPrint(a[0], space) then [a[0]] + Body(Tail(a), space, len - 1)
    else if len < 4 then [DOT] + Body(Tail(a), space, len - 1)
    else EscapeByte(a[0]) + Body(Tail(a), space, len - 4)
  }

  function QuoteIf(alt: bool, len: int): Bytes { if alt && len != 0 then [DOUBLE_QUOTE] else [] }

  /**
  What a step prints: nothing, a byte of the format, a plain copy, or `%H` of a string or of NULL;
  `len` bounds it.
  */
  datatype Emit =
    | Nothing
    | Literal(b: Byte)
    | Plain(text: CString, len: int)
    | Quoted(arg: Option<CString>, len: int, alt: bool, space: bool)

  /** What is printed if there is room for it. */
  function Emission(e: Emit): Bytes {
    match e
    case Nothing => []
    case Literal(b) => [b]
    case Plain(t, len) => if 0 <= len < |t| then t[..len] else t
    case Quoted(None, len, _, _) => if len != 0 then [DASH] else []
    case Quoted(Some(a), len, alt, space) =>
      var first := QuoteIf(alt, len);
      var body := Body(a, space, len - |first|);
      first + body + QuoteIf(alt, len - |first| - |body|)
  }

  // ---------------------------------------------------------------- with limited room

  function BodyIn(a: CString, space: bool, len: int, room: nat): (r: Bytes)
    ensures |r| <= room
    decreases |a|
  {
    if a == [] || len == 0 || room == 0 then []
    else if IsPrint(a[0], space) then [a[0]] + BodyIn(Tail(a), space, len - 1, room - 1)
    else if len < 4 || room < 4 then [DOT] + BodyIn(Tail(a), space, len - 1, room - 1)
    else EscapeByte(a[0]) + BodyIn(Tail(a), space, len - 4, room - 4)
  }

  function QuoteIn(alt: bool, len: int, room: nat): (r: Bytes)
    ensures |r| <= room
  {
    if room == 0 then [] else QuoteIf(alt, len)
  }

  /** A `%H` of a string but for its closing quote. */
  function Opening(a: CString, len: int, alt: bool, space: bool, room: nat): (r: Bytes)
    ensures |r| <= room
  {
    var first := QuoteIn(alt, len, room);
    first + BodyIn(a, space, len - |first|, room - |first|)
  }

  function Fit(t: Bytes, room: nat): Bytes { if |t| <= room then t else t[..room] }

  /** What is printed of it with room for `room` bytes. */
  function EmissionIn(e: Emit, room: nat): (r: Bytes)
    ensures |r| <= room
  {
    match e
    case Quoted(Some(a), len, alt, space) =>
      var opening := Opening(a, len, alt, space, room);
      opening + QuoteIn(alt, len - |opening|, room - |opening|)
    case Nothing => []
    case Literal(b) => if room == 0 then [] else [b]
    case Plain(t, len) => if 0 <= len < |t| then Fit(t[..len], room) else Fit(t, room)
    case Quoted(None, len, _, _) => if len == 0 || room == 0 then [] else [DASH]
  }

  lemma {:induction false} BodyFits(a: CString, space: bool, len: int, room: nat)
    requires |Body(a, space, len)| <= room
    ensures BodyIn(a, space, len, room) == Body(a, space, len)
    decreases |a|
  {
    if a != [] && len != 0 {
      var n := if IsPrint(a[0], space) || len < 4 then 1 else 4;
      BodyFits(Tail(a), space, len - n, room - n);
    }
  }

  /** With room for all of it, all of it is printed. */
  lemma {:induction false} EmissionFits(e: Emit, room: nat)
    requires |Emission(e)| <= room
    ensures EmissionIn(e, room) == Emission(e)
  {
    if e.Quoted? && e.arg.Some? {
      StringFits(e.arg.value, e.len, e.alt, e.space, room);
    }
  }

  lemma {:induction false} StringFits(a: CString, len: int, alt: bool, space: bool, room: nat)
    requires |Emission(Quoted(Some(a), len, alt, space))| <= room
    ensures EmissionIn(Quoted(Some(a), len, alt, space), room) == Emission(Quoted(Some(a), len, alt, space))
  {
    var first := QuoteIf(alt, len);
    var body := Body(a, space, len - |first|);
    var last := QuoteIf(alt, len - |first| - |body|);
    Lengths(first, body, last, room);
    BodyFits(a, space, len - |first|, room - |first|);
    ThreeParts(first, body, last, room, a, len, alt, space);
  }

  lemma Lengths(x: Bytes, y: Bytes, z: Bytes, room: nat)
    requires |x + y + z| <= room
    ensures |x| + |y| + |z| <= room
  {}

  /** Quote, body and quote make up the conversion. */
  lemma ThreeParts(x: Bytes, y: Bytes, z: Bytes, room: nat, a: CString, len: int, alt: bool, space: bool)
    requires x == QuoteIn(alt, len, room) && y == BodyIn(a, space, len - |x|, room - |x|)
    requires z == QuoteIn(alt, len - |x| - |y|, room - |x| - |y|)
    ensures x + y + z == EmissionIn(Quoted(Some(a), len, alt, space), room)
  {}

  // ---------------------------------------------------------------- the length pass

  /** The length pass of `%H`: what the conversion needs. */
  function Needed(arg: Option<CString>, alt: bool, space: bool): nat {
    match arg
    case None => if alt then 1 else 6
    case Some(a) => |Escape(a, space)| + (if alt then 2 else 0)
  }

  /** `__vsnprintf__strlen` */
  method StrLen(arg: Option<CString>, alt: bool, space: bool) returns (ret: nat)
    ensures ret == Needed(arg, alt, space)
  {
    if arg.None? {
      return if alt then 1 else 6;
    }
    ret := 0;
    var str := arg.value;
    while str != []
      invariant ret + |Escape(str, space)| == |Escape(arg.value, space)|
      decreases |str|
    {
      if IsPrint(str[0], space) {
        ret := ret + 1;
      } else {
        ret := ret + 4;
      }
      str := Tail(str);
    }
    if alt {
      ret := ret + 2;
    }
  }

  /** In a block with room for it the escaped text is whole: the dot never appears. */
  lemma {:induction false} BodyWhole(a: CString, space: bool, len: int)
    requires len >= |Escape(a, space)|
    ensures Body(a, space, len) == Escape(a, space)
  {
    if a != [] {
      BodyWhole(Tail(a), space, if IsPrint(a[0], space) then len - 1 else len - 4);
    }
  }

  /** With no width given, `%H` prints the whole escaped string and exactly as much as the length pass said. */
  lemma {:induction false} ExactlySized(a: CString, alt: bool, space: bool)
    ensures var e := Emission(Quoted(Some(a), Needed(Some(a), alt, space), alt, space));
      && |e| == Needed(Some(a), alt, space)
      && e == if alt then [DOUBLE_QUOTE] + Escape(a, space) + [DOUBLE_QUOTE] else Escape(a, space)
  {
    var n := Needed(Some(a), alt, space);
    BodyWhole(a, space, if alt then n - 1 else n);
  }

  /** Two strings that `%H` prints alike are the same string. */
  lemma {:induction false} Reversible(a: CString, b: CString, space: bool)
    requires Escape(a, space) == Escape(b, space)
    ensures a == b
  {
    UnescapeEscape(a, space);
    UnescapeEscape(b, space);
  }

  // ---------------------------------------------------------------- formats

  /** Arguments: strings, numbers as they will be printed, and the lengths that `*` asks for. */
  datatype Arg = Text(text: Option<CString>) | Number(digits: CString) | Width(width: int)

  /** Outside a conversion, or inside one with the flags and the length seen so far. */
  datatype Block = Outside | Inside(len: int, space: bool, alt: bool)

  /** Reading an argument that is not there, or not of the kind asked for, is read as nothing. */
  function TextOf(args: seq<Arg>): Option<CString> { if args != [] && args[0].Text? then args[0].text else None }
  function NumberOf(args: seq<Arg>): CString { if args != [] && args[0].Number? then args[0].digits else [] }
  function WidthOf(args: seq<Arg>): int { if args != [] && args[0].Width? then args[0].width else 0 }
  function Others(args: seq<Arg>): seq<Arg> { if args == [] then [] else args[1..] }

  predicate IsDigit(b: Byte) { 48 <= b <= 57 }

  /** How many digits a format starts with. */
  function Digits(format: Bytes): (n: nat)
    ensures n <= |format| && forall i :: 0 <= i < n ==> IsDigit(format[i])
  {
    if format == [] || !IsDigit(format[0]) then 0 else 1 + Digits(format[1..])
  }

  /** `atoi` of a run of digits. */
  function Decimal(s: Bytes): int {
    if s == [] then 0
    else
      var d: int := s[|s| - 1];
      Decimal(s[..|s| - 1]) * 10 + d - 48
  }

  const LETTER_H: Byte := 72
  const LETTER_S: Byte := 115

  /** d, i, p, u and R: numbers, pointers and sockets. */
  predicate IsNumeric(c: Byte) { c == 100 || c == 105 || c == 112 || c == 117 || c == 82 }

  predicate IsConversion(c: Byte) { IsNumeric(c) || c == LETTER_S || c == LETTER_H }

  function Length(len: int, arg: Option<CString>, alt: bool, space: bool): int {
    if len == 0 then Needed(arg, alt, space) else len
  }

  /** The string a conversion prints: NULL is spelled out, except for `%#H`. */
  function Argument(c: Byte, block: Block, args: seq<Arg>): Option<CString>
    requires block.Inside?
  {
    if IsNumeric(c) then Some(NumberOf(args))
    else if TextOf(args).None? && !(c == LETTER_H && block.alt) then Some(NULL_TEXT)
    else TextOf(args)
  }

  function Conversion(c: Byte, block: Block, args: seq<Arg>): Emit
    requires block.Inside? && IsConversion(c)
  {
    var arg := Argument(c, block, args);
    if c == LETTER_H then Quoted(arg, Length(block.len, arg, block.alt, block.space), block.alt, block.space)
    else Plain(arg.value, Length(block.len, arg, false, block.space))
  }

  /** What a flag or a length does to the conversion it stands in; other bytes do nothing. */
  function Modified(format: Bytes, block: Block, args: seq<Arg>): Block
    requires block.Inside? && format != []
  {
    var c := format[0];
    if c == STAR then block.(len := WidthOf(args))
    else if c == SPACE then block.(space := true)
    else if c == SHARP then block.(alt := true)
    else if 49 <= c <= 57 then block.(len := Decimal(format[..Digits(format)]))
    else block
  }

  /** One step through a format: how much of it, what state follows, what is printed. */
  datatype Step = Step(used: nat, block: Block, args: seq<Arg>, emit: Emit)

  function Next(format: CString, block: Block, args: seq<Arg>): (s: Step)
    requires format != []
    ensures 1 <= s.used <= |format|
  {
    var c := format[0];
    if block.Outside? then
      if c == PERCENT then Step(1, Inside(0, false, false), args, Nothing) else Step(1, Outside, args, Literal(c))
    else if IsConversion(c) then
      Step(1, Outside, Others(args), Conversion(c, block, args))
    else
      var used := if 49 <= c <= 57 then Digits(format) else 1;
      Step(used, Modified(format, block, args), if c == STAR then Others(args) else args, Nothing)
  }

  function Rest(format: CString, n: nat): CString
    requires n <= |format|
  {
    assert forall i :: 0 <= i < |format[n..]| ==> format[n..][i] == format[n + i];
    format[n..]
  }

  /** All that a format prints, step by step. */
  function Emits(format: CString, block: Block, args: seq<Arg>): seq<Emit>
    decreases |format|
  {
    if format == [] then []
    else
      var s := Next(format, block, args);
      [s.emit] + Emits(Rest(format, s.used), s.block, s.args)
  }

  function Concat(es: seq<Emit>): Bytes { if es == [] then [] else Emission(es[0]) + Concat(es[1..]) }

  /** What is printed of it, one after the other, with room for `room` bytes. */
  function ConcatIn(es: seq<Emit>, room: nat): (r: Bytes)
    ensures |r| <= room
  {
    if es == [] || room == 0 then []
    else
      var out := EmissionIn(es[0], room);
      out + ConcatIn(es[1..], room - |out|)
  }

  /** Everything a format prints, if there is room. */
  function Output(format: CString, block: Block, args: seq<Arg>): Bytes { Concat(Emits(format, block, args)) }

  /** What a format prints with room for `room` bytes. */
  function Rendered(format: CString, block: Block, args: seq<Arg>, room: nat): Bytes {
    ConcatIn(Emits(format, block, args), room)
  }

  /** If everything fits, it is printed as if there were no limit. */
  lemma {:induction false} ConcatFits(es: seq<Emit>, room: nat)
    requires |Concat(es)| <= room
    ensures ConcatIn(es, room) == Concat(es)
    decreases |es|
  {
    if es != [] && room > 0 {
      var out, more := Emission(es[0]), Concat(es[1..]);
      assert Concat(es) == out + more && |out| + |more| <= room;
      EmissionFits(es[0], room);
      ConcatFits(es[1..], room - |out|);
    }
  }

  lemma EmitsFirst(format: CString, block: Block, args: seq<Arg>, s: Step)
    requires format != [] && s == Next(format, block, args)
    ensures Emits(format, block, args) == [s.emit] + Emits(Rest(format, s.used), s.block, s.args)
  {}

  lemma ConcatInFirst(e: Emit, es: seq<Emit>, room: nat)
    requires room > 0
    ensures ConcatIn([e] + es, room) == EmissionIn(e, room) + ConcatIn(es, room - |EmissionIn(e, room)|)
  {
    assert ([e] + es)[1..] == es;
  }

  // ---------------------------------------------------------------- no NUL is printed

  lemma {:induction false} BodyNulFree(a: CString, space: bool, len: int, room: nat)
    ensures NulFree(BodyIn(a, space, len, room))
    decreases |a|
  {
    if a != [] && len != 0 && room > 0 {
      var n := if IsPrint(a[0], space) || len < 4 || room < 4 then 1 else 4;
      BodyNulFree(Tail(a), space, len - n, room - n);
    }
  }

  lemma PartsNulFree(x: Bytes, y: Bytes, z: Bytes)
    requires NulFree(x) && NulFree(y) && NulFree(z)
    ensures NulFree(x + y + z)
  {}

  lemma {:induction false} EmissionNulFree(e: Emit, room: nat)
    requires e.Literal? ==> e.b != 0
    ensures NulFree(EmissionIn(e, room))
  {
    if e.Quoted? && e.arg.Some? {
      var x := QuoteIn(e.alt, e.len, room);
      var y := BodyIn(e.arg.value, e.space, e.len - |x|, room - |x|);
      var z := QuoteIn(e.alt, e.len - |x| - |y|, room - |x| - |y|);
      BodyNulFree(e.arg.value, e.space, e.len - |x|, room - |x|);
      PartsNulFree(x, y, z);
      ThreeParts(x, y, z, room, e.arg.value, e.len, e.alt, e.space);
    }
  }

  lemma {:induction false} ConcatNulFree(es: seq<Emit>, room: nat)
    requires forall i :: 0 <= i < |es| ==> (es[i].Literal? ==> es[i].b != 0)
    ensures NulFree(ConcatIn(es, room))
    decreases |es|
  {
    if es != [] && room > 0 {
      var out := EmissionIn(es[0], room);
      EmissionNulFree(es[0], room);
      assert forall i :: 0 <= i < |es[1..]| ==> es[1..][i] == es[i + 1];
      ConcatNulFree(es[1..], room - |out|);
      PartsNulFree(out, ConcatIn(es[1..], room - |out|), []);
      assert out + ConcatIn(es[1..], room - |out|) + [] == ConcatIn(es, room);
    }
  }

  lemma {:induction false} EmitsLiterals(format: CString, block: Block, args: seq<Arg>, i: nat)
    requires i < |Emits(format, block, args)|
    ensures Emits(format, block, args)[i].Literal? ==> Emits(format, block, args)[i].b != 0
    decreases |format|
  {
    var s := Next(format, block, args);
    if i > 0 { EmitsLiterals(Rest(format, s.used), s.block, s.args, i - 1); }
  }

  // ---------------------------------------------------------------- the write pass

  /** Writes one byte. */
  method PutByte(str: array<Byte>, pos: nat, size: nat, b: Byte) returns (pos': nat)
    requires pos < size <= str.Length
    modifies str
    ensures pos' == pos + 1 && str[..pos'] == old(str[..pos]) + [b] && str[size..] == old(str[size..])
  {
    str[pos] := b;
    pos' := pos + 1;
  }

  method PutPlain(str: array<Byte>, pos: nat, size: nat, text: CString, len: int) returns (pos': nat)
    requires pos <= size <= str.Length
    modifies str
    ensures var out := EmissionIn(Plain(text, len), size - pos);
      pos' == pos + |out| && str[..pos'] == old(str[..pos]) + out && str[size..] == old(str[size..])
  {
    pos' := pos;
    var i, left := 0, len;
    while i < |text| && left != 0 && pos' < size
      invariant i <= |text| && left == len - i && pos' == pos + i <= size && (len >= 0 ==> left >= 0)
      invariant str[..pos'] == old(str[..pos]) + text[..i] && str[size..] == old(str[size..])
    {
      pos' := PutByte(str, pos', size, text[i]);
      assert text[..i + 1] == text[..i] + [text[i]];
      i, left := i + 1, left - 1;
    }
    PlainIn(text, len, size - pos, i);
  }

  lemma PlainIn(text: CString, len: int, room: nat, i: nat)
    requires i <= |text| && i <= room && (len >= 0 ==> i <= len) && (i == |text| || i == len || i == room)
    ensures EmissionIn(Plain(text, len), room) == text[..i]
  {
    assert text[..|text|] == text;
    if 0 <= len < |text| && room < len { assert text[..len][..room] == text[..room]; }
  }

  /** Writes the escape of one byte. */
  method PutEscape(str: array<Byte>, pos: nat, size: nat, b: Byte) returns (pos': nat)
    requires pos + 4 <= size <= str.Length
    modifies str
    ensures pos' == pos + 4 && str[..pos'] == old(str[..pos]) + EscapeByte(b) && str[size..] == old(str[size..])
  {
    str[pos] := BACKSLASH;
    str[pos + 1] := LETTER_X;
    str[pos + 2] := HexDigit(b / 16);
    str[pos + 3] := HexDigit(b % 16);
    pos' := pos + 4;
  }

  /** One byte of a `%H` body: itself, its escape, or a dot where room or block are too short for that. */
  function CharIn(b: Byte, space: bool, len: int, room: nat): (r: Bytes)
    requires room > 0
    ensures 1 <= |r| <= room
  {
    if IsPrint(b, space) then [b] else if room < 4 || len < 4 then [DOT] else EscapeByte(b)
  }

  method PutChar(str: array<Byte>, pos: nat, size: nat, b: Byte, space: bool, left: int) returns (pos': nat)
    requires pos < size <= str.Length
    modifies str
    ensures var out := CharIn(b, space, left, size - pos);
      pos' == pos + |out| && str[..pos'] == old(str[..pos]) + out && str[size..] == old(str[size..])
  {
    if !IsPrint(b, space) {
      if size - pos < 4 || left < 4 {
        pos' := PutByte(str, pos, size, DOT);
      } else {
        pos' := PutEscape(str, pos, size, b);
      }
    } else {
      pos' := PutByte(str, pos, size, b);
    }
  }

  /** How a body goes on after its first byte. */
  lemma BodyInStep(a: CString, space: bool, len: int, room: nat, first: Bytes)
    requires a != [] && len != 0 && room > 0 && first == CharIn(a[0], space, len, room)
    ensures BodyIn(a, space, len, room) == first + BodyIn(Tail(a), space, len - |first|, room - |first|)
  {}

  method PutBody(str: array<Byte>, pos: nat, size: nat, arg: CString, space: bool, len: int)
    returns (pos': nat, left: int)
    requires pos <= size <= str.Length
    modifies str
    ensures var out := BodyIn(arg, space, len, size - pos);
      && pos' == pos + |out| && left == len - |out|
      && str[..pos'] == old(str[..pos]) + out && str[size..] == old(str[size..])
  {
    ghost var start, body, done: Bytes := str[..pos], BodyIn(arg, space, len, size - pos), [];
    var a := arg;
    pos', left := pos, len;
    while a != [] && left != 0 && pos' < size
      invariant pos' == pos + |done| <= size && left == len - |done|
      invariant str[..pos'] == start + done && str[size..] == old(str[size..])
      invariant body == done + BodyIn(a, space, left, size - pos')
      decreases |a|
    {
      pos', left, done := BodyTurn(str, pos', size, a, space, left, start, done, body);
      a := Tail(a);
    }
  }

  /** One turn of the escaping loop. */
  method BodyTurn(str: array<Byte>, pos: nat, size: nat, a: CString, space: bool, left: int,
                  ghost start: Bytes, ghost done: Bytes, ghost body: Bytes)
    returns (pos': nat, left': int, ghost done': Bytes)
    requires pos < size <= str.Length && a != [] && left != 0
    requires str[..pos] == start + done && body == done + BodyIn(a, space, left, size - pos)
    modifies str
    ensures pos' <= size && pos' - pos == left - left' == |done'| - |done| && str[size..] == old(str[size..])
    ensures str[..pos'] == start + done' && body == done' + BodyIn(Tail(a), space, left', size - pos')
  {
    ghost var out := CharIn(a[0], space, left, size - pos);
    pos' := PutChar(str, pos, size, a[0], space, left);
    left' := left - (pos' - pos);
    BodyInStep(a, space, left, size - pos, out);
    Joined(body, done, out, BodyIn(Tail(a), space, left', size - pos'));
    Associate(start, done, out);
    done' := done + out;
  }

  lemma Associate(a: Bytes, b: Bytes, c: Bytes)
    ensures (a + b) + c == a + (b + c)
  {}

  lemma Joined(all: Bytes, a: Bytes, b: Bytes, c: Bytes)
    requires all == a + (b + c)
    ensures all == (a + b) + c
  {}

  method PutQuote(str: array<Byte>, pos: nat, size: nat, alt: bool, len: int) returns (pos': nat)
    requires pos <= size <= str.Length
    modifies str
    ensures var out := QuoteIn(alt, len, size - pos);
      pos' == pos + |out| && str[..pos'] == old(str[..pos]) + out && str[size..] == old(str[size..])
  {
    pos' := pos;
    if alt && pos < size && len != 0 {
      pos' := PutByte(str, pos, size, DOUBLE_QUOTE);
    }
  }

  /** `%H` of a string: quotes if asked for, and the body between them. */
  method PutString(str: array<Byte>, pos: nat, size: nat, a: CString, len: int, alt: bool, space: bool)
    returns (pos': nat)
    requires pos <= size <= str.Length
    modifies str
    ensures var out := EmissionIn(Quoted(Some(a), len, alt, space), size - pos);
      pos' == pos + |out| && str[..pos'] == old(str[..pos]) + out && str[size..] == old(str[size..])
  {
    ghost var start, opening := str[..pos], Opening(a, len, alt, space, size - pos);
    var p2, left := PutOpening(str, pos, size, a, len, alt, space);
    pos' := PutQuote(str, p2, size, alt, left);
    Associate(start, opening, QuoteIn(alt, left, size - p2));
  }

  method PutOpening(str: array<Byte>, pos: nat, size: nat, a: CString, len: int, alt: bool, space: bool)
    returns (pos': nat, left: int)
    requires pos <= size <= str.Length
    modifies str
    ensures var out := Opening(a, len, alt, space, size - pos);
      && pos' == pos + |out| && left == len - |out|
      && str[..pos'] == old(str[..pos]) + out && str[size..] == old(str[size..])
  {
    ghost var start, x := str[..pos], QuoteIn(alt, len, size - pos);
    var p1 := PutQuote(str, pos, size, alt, len);
    pos', left := PutBody(str, p1, size, a, space, len - (p1 - pos));
    Associate(start, x, BodyIn(a, space, len - |x|, size - p1));
  }

  /** Writes what a conversion prints. */
  method Put(str: array<Byte>, pos: nat, size: nat, e: Emit) returns (pos': nat)
    requires pos <= size <= str.Length && (e.Plain? || e.Quoted?)
    modifies str
    ensures var out := EmissionIn(e, size - pos);
      pos' == pos + |out| && str[..pos'] == old(str[..pos]) + out && str[size..] == old(str[size..])
  {
    match e
    case Plain(text, len) => pos' := PutPlain(str, pos, size, text, len);
    case Quoted(None, len, _, _) =>
      pos' := pos;
      if pos < size && len != 0 {
        pos' := PutByte(str, pos, size, DASH);
      }
    case Quoted(Some(a), len, alt, space) => pos' := PutString(str, pos, size, a, len, alt, space);
  }

  /** A conversion: finds its argument, sizes it if no length was given, writes it. */
  method Convert(str: array<Byte>, pos: nat, size: nat, c: Byte, block: Block, args: seq<Arg>) returns (pos': nat)
    requires pos <= size <= str.Length && block.Inside? && IsConversion(c)
    modifies str
    ensures var out := EmissionIn(Conversion(c, block, args), size - pos);
      pos' == pos + |out| && str[..pos'] == old(str[..pos]) + out && str[size..] == old(str[size..])
  {
    var arg := Argument(c, block, args);
    var alt := block.alt && c == LETTER_H;
    var len := block.len;
    if len == 0 {
      len := StrLen(arg, alt, block.space);
    }
    if c == LETTER_H {
      pos' := Put(str, pos, size, Quoted(arg, len, alt, block.space));
    } else {
      pos' := Put(str, pos, size, Plain(arg.value, len));
    }
  }

  /** One turn of the formatter's loop. */
  method FormatStep(str: array<Byte>, pos: nat, size: nat, format: CString, block: Block, args: seq<Arg>)
    returns (pos': nat, format': CString, block': Block, args': seq<Arg>)
    requires pos < size <= str.Length && format != []
    modifies str
    ensures var s := Next(format, block, args);
      var out := EmissionIn(s.emit, size - pos);
      && pos' == pos + |out| && str[..pos'] == old(str[..pos]) + out && str[size..] == old(str[size..])
      && format' == Rest(format, s.used) && block' == s.block && args' == s.args
  {
    var c := format[0];
    pos', block', args' := pos, block, args;
    if block.Outside? {
      format' := Rest(format, 1);
      if c == PERCENT {
        block' := Inside(0, false, false);
      } else {
        pos' := PutByte(str, pos, size, c);
      }
    } else if IsConversion(c) {
      pos' := Convert(str, pos, size, c, block, args);
      format', block', args' := Rest(format, 1), Outside, Others(args);
    } else {
      block' := Modified(format, block, args);
      format' := Rest(format, if 49 <= c <= 57 then Digits(format) else 1);
      if c == STAR {
        args' := Others(args);
      }
    }
  }

  /** The formatter's loop: what the format prints with room for `size` bytes, at the start of the buffer. */
  method FormatLoop(str: array<Byte>, size: nat, format: CString, args: seq<Arg>) returns (pos: nat)
    requires 1 <= size <= str.Length
    modifies str
    ensures str[size..] == old(str[size..]) && pos <= size && str[..pos] == Rendered(format, Outside, args, size)
  {
    ghost var all, es := Rendered(format, Outside, args, size), Emits(format, Outside, args);
    var rest, block, left := format, Outside, args;
    pos := 0;
    while rest != [] && pos < size
      invariant pos <= size && str[size..] == old(str[size..]) && es == Emits(rest, block, left)
      invariant all == str[..pos] + ConcatIn(es, size - pos)
      decreases |rest|
    {
      pos, rest, block, left, es := FormatTurn(str, pos, size, rest, block, left, all, es);
    }
  }

  method FormatTurn(str: array<Byte>, pos: nat, size: nat, format: CString, block: Block, args: seq<Arg>,
                    ghost all: Bytes, ghost es: seq<Emit>)
    returns (pos': nat, format': CString, block': Block, args': seq<Arg>, ghost es': seq<Emit>)
    requires pos < size <= str.Length && format != []
    requires es == Emits(format, block, args) && all == str[..pos] + ConcatIn(es, size - pos)
    modifies str
    ensures pos' <= size && str[size..] == old(str[size..]) && |format'| < |format|
    ensures es' == Emits(format', block', args') && all == str[..pos'] + ConcatIn(es', size - pos')
  {
    ghost var done, s := str[..pos], Next(format, block, args);
    EmitsFirst(format, block, args, s);
    pos', format', block', args' := FormatStep(str, pos, size, format, block, args);
    es' := Emits(format', block', args');
    ConcatInFirst(s.emit, es', size - pos);
    Joined(all, done, EmissionIn(s.emit, size - pos), ConcatIn(es', size - pos'));
  }

  /**
  `__vsnprintf`: whatever the format and the arguments, it writes a string that ends within `size`
  bytes: what the format prints with room for `size`, less the last byte if that fills it; and if
  everything fits, that is everything the format prints.
  */
  method Format(str: array<Byte>, size: nat, format: CString, args: seq<Arg>) returns (ghost n: nat)
    requires 1 <= size <= str.Length
    modifies str
    ensures n < size && str[n] == 0 && NulFree(str[..n])
    ensures str[size..] == old(str[size..])
    ensures var r := Rendered(format, Outside, args, size); str[..n] == if |r| == size then r[..size - 1] else r
    ensures |Output(format, Outside, args)| < size ==> str[..n] == Output(format, Outside, args)
  {
    ghost var es := Emits(format, Outside, args);
    forall i | 0 <= i < |es| ensures es[i].Literal? ==> es[i].b != 0 {
      EmitsLiterals(format, Outside, args, i);
    }
    ConcatNulFree(es, size);
    if |Concat(es)| < size {
      ConcatFits(es, size);
    }
    var pos := FormatLoop(str, size, format, args);
    n := Terminate(str, pos, size, ConcatIn(es, size));
  }

  /** The terminator, in place of the last byte if there is no room behind it. */
  method Terminate(str: array<Byte>, pos: nat, size: nat, ghost r: Bytes) returns (ghost n: nat)
    requires 1 <= size <= str.Length && pos <= size && str[..pos] == r && NulFree(r)
    modifies str
    ensures n < size && str[n] == 0 && str[..n] == (if |r| == size then r[..size - 1] else r) && NulFree(str[..n])
    ensures str[size..] == old(str[size..])
  {
    var last := if pos == size then pos - 1 else pos;
    str[last] := 0;
    n := last;
    assert str[..n] == r[..n];
  }

  lemma OutputNothing(f: CString, block: Block, args: seq<Arg>, s: Step)
    requires f != [] && s == Next(f, block, args) && s.emit == Nothing
    ensures Output(f, block, args) == Output(Rest(f, s.used), s.block, s.args)
  {
    EmitsFirst(f, block, args, s);
    var es := Emits(Rest(f, s.used), s.block, s.args);
    assert ([s.emit] + es)[1..] == es && [] + Concat(es) == Concat(es);
  }

  lemma FlagStep(f: CString, flag: Bytes, rest: CString, block: Block, args: seq<Arg>)
    requires f == flag + rest && block.Inside? && flag in [[], [SPACE], [SHARP]]
    ensures Output(f, block, args) ==
      Output(rest, Inside(block.len, block.space || flag == [SPACE], block.alt || flag == [SHARP]), args)
  {
    if flag == [] {
      assert f == rest;
    } else {
      assert f[0] == flag[0] && Rest(f, 1) == rest;
      OutputNothing(f, block, args, Next(f, block, args));
    }
  }

  lemma LastStep(f: CString, a: CString, alt: bool, space: bool)
    requires f == [LETTER_H]
    ensures var quote := if alt then [DOUBLE_QUOTE] else [];
      Output(f, Inside(0, space, alt), [Text(Some(a))]) == quote + Escape(a, space) + quote
  {
    var args, block := [Text(Some(a))], Inside(0, space, alt);
    var e := Quoted(Some(a), Needed(Some(a), alt, space), alt, space);
    assert Argument(LETTER_H, block, args) == Some(a);
    assert Next(f, block, args) == Step(1, Outside, Others(args), e);
    EmitsFirst(f, block, args, Next(f, block, args));
    assert Emits(Rest(f, 1), Outside, Others(args)) == [];
    ConcatOne(e);
    ExactlySized(a, alt, space);
  }

  lemma ConcatOne(e: Emit)
    ensures Concat([e] + []) == Emission(e)
  {
    var es: seq<Emit> := [e] + [];
    assert es[1..] == [] && Emission(e) + [] == Emission(e);
  }

  /** The formats `%H`, `%#H`, `% H` and `%# H` of a string: exactly its escape, in quotes with `#`. */
  lemma {:induction false} PercentH(format: CString, a: CString, alt: bool, space: bool)
    requires format == [PERCENT] + ((if alt then [SHARP] else []) + ((if space then [SPACE] else []) + [LETTER_H]))
    ensures var quote := if alt then [DOUBLE_QUOTE] else [];
      Output(format, Outside, [Text(Some(a))]) == quote + Escape(a, space) + quote
  {
    var args := [Text(Some(a))];
    var last: CString := [LETTER_H];
    var spaced: CString := (if space then [SPACE] else []) + last;
    var flags: CString := (if alt then [SHARP] else []) + spaced;
    assert Rest(format, 1) == flags && Next(format, Outside, args) == Step(1, Inside(0, false, false), args, Nothing);
    OutputNothing(format, Outside, args, Next(format, Outside, args));
    FlagStep(flags, if alt then [SHARP] else [], spaced, Inside(0, false, false), args);
    FlagStep(spaced, if space then [SPACE] else [], last, Inside(0, false, alt), args);
    LastStep(last, a, alt, space);
  }
}
