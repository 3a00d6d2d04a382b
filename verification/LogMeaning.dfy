/**
What a log format means, told apart from how the formatter goes through it: a format is literal bytes
and conversions, a conversion is flags, lengths and a letter, and each prints its argument.  Every
format can be read this way, and the formatter prints what the reading says.
*/
module LogMeaning {
  import opened CTypes
  import opened LogFormat

  /** What may stand between the percent sign and the letter of a conversion; other bytes are passed over. */
  datatype Mod = Sharp | Blank | Star | Size(n: nat) | Other(b: Byte)

  datatype Piece = Char(b: Byte) | Conv(mods: seq<Mod>, letter: Byte)

  /** A whole format: its pieces, and a conversion without a letter if it ends in one. */
  datatype Layout = Layout(pieces: seq<Piece>, open: Option<seq<Mod>>)

  // ---------------------------------------------------------------- spelling

  function DecimalText(n: nat): (t: CString)
    ensures t != [] && forall i :: 0 <= i < |t| ==> 48 <= t[i] <= 57
    ensures n > 0 ==> t[0] != 48
  {
    if n < 10 then [48 + n] else DecimalText(n / 10) + [48 + n % 10]
  }

  function SpellMod(m: Mod): Bytes {
    match m
    case Sharp => [35]
    case Blank => [32]
    case Star => [42]
    case Size(n) => DecimalText(n)
    case Other(b) => [b]
  }

  function SpellMods(mods: seq<Mod>): Bytes { if mods == [] then [] else SpellMod(mods[0]) + SpellMods(mods[1..]) }

  /** The letters that end a conversion: d, i, p, u and R, then s and H. */
  predicate IsNumber(c: Byte) { c in [100, 105, 112, 117, 82] }
  predicate IsLetter(c: Byte) { IsNumber(c) || c == 115 || c == 72 }

  predicate IsMod(m: Mod) {
    match m
    case Size(n) => n > 0
    case Other(b) => b != 0 && b !in [35, 32, 42] && !(49 <= b <= 57) && !IsLetter(b)
    case _ => true
  }

  /** A length is followed by no digit: that would be part of it. */
  predicate Apart(m: Mod, next: Mod) { m.Size? ==> !next.Size? && next != Other(48) }

  predicate AreMods(mods: seq<Mod>) {
    mods != [] ==> IsMod(mods[0]) && (|mods| > 1 ==> Apart(mods[0], mods[1])) && AreMods(mods[1..])
  }

  function SpellPiece(p: Piece): Bytes {
    match p
    case Char(b) => [b]
    case Conv(mods, letter) => [37] + (SpellMods(mods) + [letter])
  }

  predicate IsPiece(p: Piece) {
    match p
    case Char(b) => b != 0 && b != 37
    case Conv(mods, letter) => AreMods(mods) && IsLetter(letter)
  }

  function SpellPieces(ps: seq<Piece>, end: Bytes): Bytes {
    if ps == [] then end else SpellPiece(ps[0]) + SpellPieces(ps[1..], end)
  }

  function SpellOpen(open: Option<seq<Mod>>): Bytes {
    match open
    case None => []
    case Some(mods) => [37] + SpellMods(mods)
  }

  function SpellLayout(t: Layout): Bytes { SpellPieces(t.pieces, SpellOpen(t.open)) }

  predicate IsLayout(t: Layout) {
    (forall i :: 0 <= i < |t.pieces| ==> IsPiece(t.pieces[i])) && (t.open.Some? ==> AreMods(t.open.value))
  }

  // ---------------------------------------------------------------- meaning

  const HEX := "0123456789abcdef"

  /** A byte as harmless text: itself if it is printable ASCII but for a few, else its escape. */
  function Harmless(b: Byte, space: bool): Bytes {
    if (35 <= b <= 127 && b != 92 && b != 96) || (space && b == 32) then [b]
    else [92, 120, HEX[b / 16] as int, HEX[b % 16] as int]
  }

  function AllHarmless(a: Bytes, space: bool): Bytes {
    if a == [] then [] else Harmless(a[0], space) + AllHarmless(a[1..], space)
  }

  /** The same with a dot for every escape. */
  function Dotted(a: Bytes, space: bool): Bytes {
    if a == [] then [] else [if Harmless(a[0], space) == [a[0]] then a[0] else 46] + Dotted(a[1..], space)
  }

  function UpTo(t: Bytes, n: int): Bytes { if 0 <= n < |t| then t[..n] else t }

  /** A text in `n` bytes: in full as long as the next byte's escape is short enough, then with dots. */
  function Fitted(a: Bytes, space: bool, n: nat): Bytes {
    if a == [] || |Harmless(a[0], space)| > n then UpTo(Dotted(a, space), n)
    else Harmless(a[0], space) + Fitted(a[1..], space, n - |Harmless(a[0], space)|)
  }

  /** A string printed by H in exactly `n` bytes, or fewer if it is shorter: quote, text, quote. */
  function Sized(a: Bytes, alt: bool, space: bool, n: nat): Bytes {
    if !alt then Fitted(a, space, n)
    else if n == 0 then []
    else
      var body := Fitted(a, space, n - 1);
      [34] + body + (if |body| < n - 1 then [34] else [])
  }

  /** The length that counts is the last one given; a star takes it from the arguments. */
  function LengthGiven(len: int, mods: seq<Mod>, args: seq<Arg>): int
    decreases |mods|
  {
    if mods == [] then len
    else match mods[0]
      case Size(n) => LengthGiven(n, mods[1..], args)
      case Star => LengthGiven(WidthArg(args), mods[1..], Skip(args, 1))
      case _ => LengthGiven(len, mods[1..], args)
  }

  function Stars(mods: seq<Mod>): nat { if mods == [] then 0 else (if mods[0].Star? then 1 else 0) + Stars(mods[1..]) }

  function Skip(args: seq<Arg>, n: nat): seq<Arg> { if n <= |args| then args[n..] else [] }

  function WidthArg(args: seq<Arg>): int { if |args| > 0 && args[0].Width? then args[0].width else 0 }
  function StringArg(args: seq<Arg>): Option<CString> { if |args| > 0 && args[0].Text? then args[0].text else None }
  function NumberArg(args: seq<Arg>): CString { if |args| > 0 && args[0].Number? then args[0].digits else [] }

  /** A string, NULL spelled out. */
  function Shown(arg: Option<CString>): CString { if arg.None? then [40, 110, 117, 108, 108, 41] else arg.value }

  /** A string as harmless text; a negative length leaves no room for any escape, but ends nothing. */
  function HarmlessText(a: Bytes, alt: bool, space: bool, n: int): Bytes {
    if n > 0 then Sized(a, alt, space, n)
    else if n == 0 then Sized(a, alt, space, Needs(a, alt, space))
    else if alt then [34] + Dotted(a, space) + [34]
    else Dotted(a, space)
  }

  /** What a letter prints of its argument, `n` being the length given, 0 if none is. */
  function ConvText(letter: Byte, alt: bool, space: bool, n: int, args: seq<Arg>): Bytes {
    if IsNumber(letter) then CutTo(NumberArg(args), n)
    else if letter == 115 then CutTo(Shown(StringArg(args)), n)
    else if StringArg(args).None? && alt then [45]
    else HarmlessText(Shown(StringArg(args)), alt, space, n)
  }

  /** No length, or a negative one, means all of it. */
  function CutTo(t: Bytes, n: int): Bytes { if 0 < n < |t| then t[..n] else t }

  function Needs(a: Bytes, alt: bool, space: bool): nat { |AllHarmless(a, space)| + if alt then 2 else 0 }

  function PieceText(p: Piece, args: seq<Arg>): Bytes {
    match p
    case Char(b) => [b]
    case Conv(mods, letter) =>
      ConvText(letter, Sharp in mods, Blank in mods, LengthGiven(0, mods, args), Skip(args, Stars(mods)))
  }

  function ArgsAfter(p: Piece, args: seq<Arg>): seq<Arg> {
    match p
    case Char(_) => args
    case Conv(mods, _) => Skip(args, Stars(mods) + 1)
  }

  function Meaning(ps: seq<Piece>, args: seq<Arg>): Bytes {
    if ps == [] then [] else PieceText(ps[0], args) + Meaning(ps[1..], ArgsAfter(ps[0], args))
  }

  // ---------------------------------------------------------------- harmless text is the formatter's

  lemma HexLetters(d: nat)
    requires d < 16
    ensures HexDigit(d) == HEX[d] as int
  {}

  lemma HarmlessIs(b: Byte, space: bool)
    ensures Harmless(b, space) == if IsPrint(b, space) then [b] else EscapeByte(b)
    ensures IsPrint(b, space) <==> Harmless(b, space) == [b]
  {
    HexLetters(b / 16);
    HexLetters(b % 16);
  }

  lemma {:induction false} EscapeIs(a: CString, space: bool)
    ensures AllHarmless(a, space) == Escape(a, space)
  {
    if a != [] {
      HarmlessIs(a[0], space);
      EscapeIs(Tail(a), space);
    }
  }

  lemma {:induction false} DottedBody(a: CString, space: bool, len: int)
    requires len < 4
    ensures Body(a, space, len) == UpTo(Dotted(a, space), len)
    decreases |a|
  {
    if a != [] {
      HarmlessIs(a[0], space);
      DottedLength(a, space);
      if len != 0 {
        DottedBody(Tail(a), space, len - 1);
        DottedLength(Tail(a), space);
        UpToCons(Dotted(a, space)[0], Dotted(Tail(a), space), len);
      }
    }
  }

  lemma {:induction false} DottedLength(a: Bytes, space: bool)
    ensures |Dotted(a, space)| == |a|
  {
    if a != [] { DottedLength(a[1..], space); }
  }

  lemma UpToCons(b: Byte, t: Bytes, n: int)
    requires n != 0
    ensures UpTo([b] + t, n) == [b] + UpTo(t, n - 1)
  {}

  lemma BodyStops(a: CString, space: bool, n: nat)
    requires a == [] || |Harmless(a[0], space)| > n
    ensures Body(a, space, n) == UpTo(Dotted(a, space), n)
  {
    if a != [] { HarmlessIs(a[0], space); }
    DottedBody(a, space, if n < 4 then n else 0);
  }

  lemma BodyGoesOn(a: CString, space: bool, n: nat)
    requires a != [] && |Harmless(a[0], space)| <= n
    ensures Body(a, space, n) == Harmless(a[0], space) + Body(Tail(a), space, n - |Harmless(a[0], space)|)
  {
    HarmlessIs(a[0], space);
  }

  lemma {:induction false} BodyIsFitted(a: CString, space: bool, n: nat)
    ensures Body(a, space, n) == Fitted(a, space, n)
    decreases |a|
  {
    if a == [] || |Harmless(a[0], space)| > n {
      BodyStops(a, space, n);
    } else {
      BodyGoesOn(a, space, n);
      BodyIsFitted(Tail(a), space, n - |Harmless(a[0], space)|);
    }
  }

  // ---------------------------------------------------------------- one conversion

  lemma SizedIs(a: CString, alt: bool, space: bool, n: nat)
    ensures Emission(Quoted(Some(a), n, alt, space)) == Sized(a, alt, space, n)
  {
    if n == 0 {
      assert Emission(Quoted(Some(a), 0, alt, space)) == [];
      FittedNothing(a, space);
    } else if alt {
      var body := Fitted(a, space, n - 1);
      BodyIsFitted(a, space, n - 1);
      QuotedText(a, true, space, n, body);
    } else {
      BodyIsFitted(a, space, n);
      QuotedText(a, false, space, n, Fitted(a, space, n));
    }
  }

  lemma QuotedText(a: CString, alt: bool, space: bool, n: nat, body: Bytes)
    requires body == Body(a, space, if alt && n > 0 then n - 1 else n) && (n == 0 ==> body == [])
    ensures Emission(Quoted(Some(a), n, alt, space)) ==
      if !alt then body else if n == 0 then [] else [34] + body + (if |body| < n - 1 then [34] else [])
  {
    if alt && n > 0 { BodyShort(a, space, n - 1); }
    assert [] + body + [] == body;
  }

  lemma {:induction false} BodyShort(a: CString, space: bool, n: nat)
    ensures |Body(a, space, n)| <= n
    decreases |a|
  {
    if a != [] && n > 0 {
      BodyShort(Tail(a), space, if IsPrint(a[0], space) || n < 4 then n - 1 else n - 4);
    }
  }

  lemma FittedNothing(a: Bytes, space: bool)
    ensures Fitted(a, space, 0) == []
  {
  }

  /** A negative length: nothing is ever long enough for an escape, and nothing ends the text. */
  lemma NegativeIs(a: CString, alt: bool, space: bool, n: int)
    requires n < 0
    ensures Emission(Quoted(Some(a), n, alt, space)) ==
      if alt then [34] + Dotted(a, space) + [34] else Dotted(a, space)
  {
    DottedBody(a, space, if alt then n - 1 else n);
    NegativeQuoted(a, alt, space, n, Dotted(a, space));
  }

  lemma NegativeQuoted(a: CString, alt: bool, space: bool, n: int, body: Bytes)
    requires n < 0 && body == Body(a, space, if alt then n - 1 else n)
    ensures Emission(Quoted(Some(a), n, alt, space)) == if alt then [34] + body + [34] else body
  {
    assert [] + body + [] == body;
  }

  lemma NeededIs(a: CString, alt: bool, space: bool)
    ensures Needed(Some(a), alt, space) == Needs(a, alt, space) >= |a|
  {
    EscapeIs(a, space);
    EscapeLonger(a, space);
  }

  lemma {:induction false} EscapeLonger(a: CString, space: bool)
    ensures |Escape(a, space)| >= |a|
  {
    if a != [] { EscapeLonger(Tail(a), space); }
  }

  lemma PlainIs(t: CString, n: int, space: bool)
    ensures Emission(Plain(t, Length(n, Some(t), false, space))) == CutTo(t, n)
  {
    NeededIs(t, false, space);
  }

  lemma HarmlessTextIs(a: CString, n: int, alt: bool, space: bool)
    ensures Emission(Quoted(Some(a), Length(n, Some(a), alt, space), alt, space)) == HarmlessText(a, alt, space, n)
  {
    NeededIs(a, alt, space);
    if n < 0 {
      NegativeIs(a, alt, space, n);
    } else {
      SizedIs(a, alt, space, Length(n, Some(a), alt, space));
    }
  }

  lemma NumberIs(c: Byte, block: Block, args: seq<Arg>)
    requires block.Inside? && IsNumeric(c)
    ensures IsNumber(c) && Emission(Conversion(c, block, args)) == CutTo(NumberArg(args), block.len)
  {
    var t := NumberArg(args);
    assert Conversion(c, block, args) == Plain(t, Length(block.len, Some(t), false, block.space));
    PlainIs(t, block.len, block.space);
  }

  lemma StringIs(block: Block, args: seq<Arg>)
    requires block.Inside?
    ensures Emission(Conversion(115, block, args)) == CutTo(Shown(StringArg(args)), block.len)
  {
    var t := Shown(StringArg(args));
    assert Conversion(115, block, args) == Plain(t, Length(block.len, Some(t), false, block.space));
    PlainIs(t, block.len, block.space);
  }

  lemma HarmlessStringIs(block: Block, args: seq<Arg>)
    requires block.Inside? && !(StringArg(args).None? && block.alt)
    ensures Emission(Conversion(72, block, args)) ==
      HarmlessText(Shown(StringArg(args)), block.alt, block.space, block.len)
  {
    var a := Shown(StringArg(args));
    assert Conversion(72, block, args) ==
      Quoted(Some(a), Length(block.len, Some(a), block.alt, block.space), block.alt, block.space);
    HarmlessTextIs(a, block.len, block.alt, block.space);
  }

  lemma DashIs(block: Block, args: seq<Arg>)
    requires block.Inside? && StringArg(args).None? && block.alt
    ensures Emission(Conversion(72, block, args)) == [45]
  {}

  /** What a conversion prints is what its letter means. */
  lemma ConversionIs(c: Byte, block: Block, args: seq<Arg>)
    requires block.Inside? && IsConversion(c)
    ensures Emission(Conversion(c, block, args)) == ConvText(c, block.alt, block.space, block.len, args)
  {
    if IsNumeric(c) {
      NumberIs(c, block, args);
    } else if c == 115 {
      StringIs(block, args);
    } else if StringArg(args).None? && block.alt {
      DashIs(block, args);
    } else {
      HarmlessStringIs(block, args);
    }
  }

  // ---------------------------------------------------------------- step by step

  lemma PrintingStep(f: CString, block: Block, args: seq<Arg>, s: Step)
    requires f != [] && s == Next(f, block, args)
    ensures Output(f, block, args) == Emission(s.emit) + Output(Rest(f, s.used), s.block, s.args)
  {
    EmitsFirst(f, block, args, s);
    assert ([s.emit] + Emits(Rest(f, s.used), s.block, s.args))[1..] == Emits(Rest(f, s.used), s.block, s.args);
  }

  lemma CharStep(f: CString, b: Byte, rest: CString, args: seq<Arg>)
    requires f == [b] + rest && b != 37
    ensures Output(f, Outside, args) == [b] + Output(rest, Outside, args)
  {
    assert Rest(f, 1) == rest;
    PrintingStep(f, Outside, args, Next(f, Outside, args));
  }

  lemma OpenStep(f: CString, rest: CString, args: seq<Arg>)
    requires f == [37] + rest
    ensures Output(f, Outside, args) == Output(rest, Inside(0, false, false), args)
  {
    assert Rest(f, 1) == rest;
    OutputNothing(f, Outside, args, Next(f, Outside, args));
  }

  lemma LetterStep(f: CString, c: Byte, rest: CString, block: Block, args: seq<Arg>)
    requires f == [c] + rest && block.Inside? && IsLetter(c)
    ensures Output(f, block, args) ==
      ConvText(c, block.alt, block.space, block.len, args) + Output(rest, Outside, Skip(args, 1))
  {
    assert Rest(f, 1) == rest;
    PrintingStep(f, block, args, Next(f, block, args));
    ConversionIs(c, block, args);
  }

  // ---------------------------------------------------------------- lengths

  lemma {:induction false} DigitsRun(t: Bytes, rest: Bytes)
    requires forall i :: 0 <= i < |t| ==> 48 <= t[i] <= 57
    requires rest != [] ==> !(48 <= rest[0] <= 57)
    ensures Digits(t + rest) == |t|
  {
    if t == [] {
      assert t + rest == rest;
    } else {
      assert (t + rest)[1..] == t[1..] + rest;
      DigitsRun(t[1..], rest);
    }
  }

  lemma {:induction false} DecimalBack(n: nat)
    ensures Decimal(DecimalText(n)) == n
  {
    var t := DecimalText(n);
    if n >= 10 {
      DecimalBack(n / 10);
      assert t[..|t| - 1] == DecimalText(n / 10);
    } else {
      assert t[..|t| - 1] == [] && Decimal([]) == 0;
    }
  }

  /** A run of digits that does not begin with 0 is how its number is spelled. */
  lemma {:induction false} DecimalForth(t: Bytes)
    requires t != [] && t[0] != 48 && forall i :: 0 <= i < |t| ==> 48 <= t[i] <= 57
    ensures Decimal(t) > 0 && DecimalText(Decimal(t)) == t
  {
    var init, last: int := t[..|t| - 1], t[|t| - 1];
    assert t == init + [t[|t| - 1]];
    if init == [] {
      assert Decimal(init) == 0;
    } else {
      DecimalForth(init);
      var n := Decimal(init);
      var d := last - 48;
      assert Decimal(t) == n * 10 + d && (n * 10 + d) / 10 == n && (n * 10 + d) % 10 == d;
    }
  }

  // ---------------------------------------------------------------- flags and lengths in a conversion

  function BlockAfter(m: Mod, block: Block, args: seq<Arg>): Block
    requires block.Inside?
  {
    match m
    case Sharp => block.(alt := true)
    case Blank => block.(space := true)
    case Star => block.(len := WidthArg(args))
    case Size(n) => block.(len := n)
    case Other(_) => block
  }

  lemma SizeStep(f: CString, n: nat, rest: CString, block: Block, args: seq<Arg>)
    requires f == DecimalText(n) + rest && block.Inside? && n > 0 && (rest != [] ==> !(48 <= rest[0] <= 57))
    ensures Output(f, block, args) == Output(rest, block.(len := n), args)
  {
    var t := DecimalText(n);
    DigitsRun(t, rest);
    DecimalBack(n);
    assert f[0] == t[0] && f[..|t|] == t && Rest(f, |t|) == rest;
    OutputNothing(f, block, args, Next(f, block, args));
  }

  lemma ByteStep(f: CString, b: Byte, rest: CString, block: Block, args: seq<Arg>)
    requires f == [b] + rest && block.Inside? && !(49 <= b <= 57) && !IsLetter(b)
    ensures Output(f, block, args) ==
      Output(rest, Modified([b], block, args), if b == 42 then Skip(args, 1) else args)
  {
    assert Rest(f, 1) == rest;
    OutputNothing(f, block, args, Next(f, block, args));
  }

  lemma ModStep(f: CString, m: Mod, rest: CString, block: Block, args: seq<Arg>)
    requires f == SpellMod(m) + rest && block.Inside? && IsMod(m)
    requires m.Size? && rest != [] ==> !(48 <= rest[0] <= 57)
    ensures Output(f, block, args) == Output(rest, BlockAfter(m, block, args), if m.Star? then Skip(args, 1) else args)
  {
    if m.Size? {
      SizeStep(f, m.n, rest, block, args);
    } else {
      ByteStep(f, SpellMod(m)[0], rest, block, args);
    }
  }

  lemma NulFreeParts(f: Bytes, a: Bytes, b: Bytes)
    requires NulFree(f) && f == a + b
    ensures NulFree(a) && NulFree(b)
  {
    assert forall i :: 0 <= i < |a| ==> a[i] == f[i];
    assert forall i :: 0 <= i < |b| ==> b[i] == f[|a| + i];
  }

  lemma SkipTwice(args: seq<Arg>, n: nat)
    ensures Skip(Skip(args, 1), n) == Skip(args, 1 + n)
  {}

  lemma ModStarts(m: Mod)
    requires IsMod(m)
    ensures SpellMod(m) != [] && (48 <= SpellMod(m)[0] <= 57 ==> m.Size? || m == Other(48))
  {}

  /** What follows a length in a conversion is no digit. */
  lemma LengthEnds(mods: seq<Mod>, rest: Bytes)
    requires AreMods(mods) && mods != [] && mods[0].Size? && (rest != [] ==> IsLetter(rest[0]))
    ensures var tail := SpellMods(mods[1..]) + rest; tail != [] ==> !(48 <= tail[0] <= 57)
  {
    if |mods| > 1 {
      ModStarts(mods[1]);
      assert mods[1..][0] == mods[1];
    } else {
      assert SpellMods(mods[1..]) + rest == rest;
    }
  }

  /** What is set once all flags and lengths have been gone through. */
  function AfterMods(mods: seq<Mod>, block: Block, args: seq<Arg>): Block
    requires block.Inside?
  {
    Inside(LengthGiven(block.len, mods, args), block.space || Blank in mods, block.alt || Sharp in mods)
  }

  lemma AfterFirst(mods: seq<Mod>, block: Block, args: seq<Arg>)
    requires mods != [] && block.Inside?
    ensures var args' := if mods[0].Star? then Skip(args, 1) else args;
      && AfterMods(mods, block, args) == AfterMods(mods[1..], BlockAfter(mods[0], block, args), args')
      && Skip(args, Stars(mods)) == Skip(args', Stars(mods[1..]))
  {
    SkipTwice(args, Stars(mods[1..]));
    SkipNone(args);
    InFirst(mods, Blank);
    InFirst(mods, Sharp);
  }

  lemma InFirst<T>(s: seq<T>, x: T)
    requires s != []
    ensures x in s <==> x == s[0] || x in s[1..]
  {
    assert s == [s[0]] + s[1..];
  }

  lemma SkipNone(args: seq<Arg>)
    ensures Skip(args, 0) == args
  {}

  lemma {:induction false} ModsStep(f: CString, mods: seq<Mod>, rest: CString, block: Block, args: seq<Arg>)
    requires f == SpellMods(mods) + rest && block.Inside? && AreMods(mods) && (rest != [] ==> IsLetter(rest[0]))
    ensures Output(f, block, args) == Output(rest, AfterMods(mods, block, args), Skip(args, Stars(mods)))
    decreases |mods|
  {
    if mods == [] {
      assert f == rest && Skip(args, 0) == args;
    } else {
      var m, others := mods[0], mods[1..];
      var tail := SpellMods(others) + rest;
      Associate(SpellMod(m), SpellMods(others), rest);
      NulFreeParts(f, SpellMod(m), tail);
      if m.Size? { LengthEnds(mods, rest); }
      ModStep(f, m, tail, block, args);
      ModsStep(tail, others, rest, BlockAfter(m, block, args), if m.Star? then Skip(args, 1) else args);
      AfterFirst(mods, block, args);
    }
  }

  lemma ConvSpelled(f: Bytes, mods: Bytes, letter: Byte, rest: Bytes)
    requires NulFree(f) && f == [37] + (mods + [letter]) + rest
    ensures var last := [letter] + rest;
      f == [37] + (mods + last) && NulFree(mods + last) && NulFree(last)
  {
    var last := [letter] + rest;
    assert f == [37] + (mods + last);
    NulFreeParts(f, [37], mods + last);
    NulFreeParts(mods + last, mods, last);
  }

  lemma {:induction false} ConvStep(f: CString, mods: seq<Mod>, inside: CString, last: CString, args: seq<Arg>)
    requires f == [37] + inside && inside == SpellMods(mods) + last && AreMods(mods) && last != [] && IsLetter(last[0])
    ensures Output(f, Outside, args) ==
      Output(last, AfterMods(mods, Inside(0, false, false), args), Skip(args, Stars(mods)))
  {
    OpenStep(f, inside, args);
    ModsStep(inside, mods, last, Inside(0, false, false), args);
  }

  lemma {:induction false} PieceStep(f: CString, p: Piece, rest: CString, args: seq<Arg>)
    requires f == SpellPiece(p) + rest && IsPiece(p)
    ensures Output(f, Outside, args) == PieceText(p, args) + Output(rest, Outside, ArgsAfter(p, args))
  {
    if p.Char? {
      CharStep(f, p.b, rest, args);
    } else {
      var last := [p.letter] + rest;
      ConvSpelled(f, SpellMods(p.mods), p.letter, rest);
      ConvStep(f, p.mods, SpellMods(p.mods) + last, last, args);
      LetterStep(last, p.letter, rest, AfterMods(p.mods, Inside(0, false, false), args), Skip(args, Stars(p.mods)));
      SkipMore(args, Stars(p.mods));
    }
  }

  lemma SkipMore(args: seq<Arg>, n: nat)
    ensures Skip(Skip(args, n), 1) == Skip(args, n + 1)
  {}

  lemma OpenEnd(f: CString, open: Option<seq<Mod>>, args: seq<Arg>)
    requires f == SpellOpen(open) && (open.Some? ==> AreMods(open.value))
    ensures Output(f, Outside, args) == []
  {
    if open.Some? {
      var inside := SpellMods(open.value);
      NulFreeParts(f, [37], inside);
      OpenStep(f, inside, args);
      assert inside == SpellMods(open.value) + [];
      ModsStep(inside, open.value, [], Inside(0, false, false), args);
    }
  }

  /**
  What a format prints, if there is room, is what it means: its literal bytes and what its
  conversions print of their arguments, in order.
  */
  lemma {:induction false} FormatMeans(f: CString, t: Layout, args: seq<Arg>)
    requires f == SpellLayout(t) && IsLayout(t)
    ensures Output(f, Outside, args) == Meaning(t.pieces, args)
    decreases |t.pieces|
  {
    if t.pieces == [] {
      OpenEnd(f, t.open, args);
    } else {
      var p, others := t.pieces[0], Layout(t.pieces[1..], t.open);
      assert forall i :: 0 <= i < |others.pieces| ==> others.pieces[i] == t.pieces[i + 1];
      assert IsPiece(t.pieces[0]);
      NulFreeParts(f, SpellPiece(p), SpellLayout(others));
      PieceStep(f, p, SpellLayout(others), args);
      FormatMeans(SpellLayout(others), others, ArgsAfter(p, args));
    }
  }

  // ---------------------------------------------------------------- every format

  /** The flag or length at the front of a text. */
  lemma ModRead(f: CString) returns (m: Mod, n: nat)
    requires f != [] && !IsLetter(f[0])
    ensures 1 <= n <= |f| && SpellMod(m) == f[..n] && IsMod(m)
    ensures m.Size? && n < |f| ==> !(48 <= f[n] <= 57)
    ensures !(48 <= f[0] <= 57) ==> !m.Size? && m != Other(48)
  {
    if 49 <= f[0] <= 57 {
      n := Digits(f);
      DecimalForth(f[..n]);
      DigitsMaximal(f);
      m := Size(Decimal(f[..n]));
    } else {
      n := 1;
      m := if f[0] == 35 then Sharp else if f[0] == 32 then Blank else if f[0] == 42 then Star else Other(f[0]);
      assert f[..1] == [f[0]];
    }
  }

  lemma {:induction false} DigitsMaximal(f: Bytes)
    ensures Digits(f) < |f| ==> !(48 <= f[Digits(f)] <= 57)
  {
    if f != [] && IsDigit(f[0]) { DigitsMaximal(f[1..]); }
  }

  /** The flags and lengths at the front of a text, up to a letter or its end. */
  lemma {:induction false} ModsRead(f: CString) returns (mods: seq<Mod>, rest: CString)
    ensures f == SpellMods(mods) + rest && AreMods(mods) && (rest != [] ==> IsLetter(rest[0]))
    ensures mods != [] ==> f != [] && (!(48 <= f[0] <= 57) ==> !mods[0].Size? && mods[0] != Other(48))
    decreases |f|
  {
    if f == [] || IsLetter(f[0]) {
      mods, rest := [], f;
      assert f == [] + f;
    } else {
      var m, n := ModRead(f);
      var tail := f[n..];
      assert f == f[..n] + tail;
      NulFreeParts(f, f[..n], tail);
      var more;
      more, rest := ModsRead(tail);
      mods := [m] + more;
      ModsCons(m, more, f, rest, n);
    }
  }

  lemma ModsCons(m: Mod, more: seq<Mod>, f: Bytes, rest: Bytes, n: nat)
    requires n <= |f| && SpellMod(m) == f[..n] && f[n..] == SpellMods(more) + rest && IsMod(m) && AreMods(more)
    requires more != [] ==> n < |f| && Apart(m, more[0])
    ensures AreMods([m] + more) && f == SpellMods([m] + more) + rest
  {
    var mods := [m] + more;
    assert mods[1..] == more && (more != [] ==> mods[1] == more[0]);
    assert f == f[..n] + f[n..];
    Associate(SpellMod(m), SpellMods(more), rest);
  }

  /** Every format has such a layout. */
  lemma {:induction false} EveryFormat(f: CString) returns (t: Layout)
    ensures IsLayout(t) && SpellLayout(t) == f
    decreases |f|, 1
  {
    if f == [] {
      t := Layout([], None);
    } else {
      assert f == [f[0]] + f[1..];
      NulFreeParts(f, [f[0]], f[1..]);
      if f[0] == 37 {
        t := EveryConversion(f, f[1..]);
      } else {
        var u := EveryFormat(f[1..]);
        t := Prefixed(Char(f[0]), u, f);
      }
    }
  }

  lemma {:induction false} EveryConversion(f: CString, inside: CString) returns (t: Layout)
    requires f == [37] + inside
    ensures IsLayout(t) && SpellLayout(t) == f
    decreases |f|, 0
  {
    var mods, rest := ModsRead(inside);
    if rest == [] {
      t := Layout([], Some(mods));
      assert SpellMods(mods) + [] == SpellMods(mods);
    } else {
      var letter, more := rest[0], rest[1..];
      assert rest == [letter] + more;
      NulFreeParts(rest, [letter], more);
      var u := EveryFormat(more);
      ConvFirst(SpellMods(mods), letter, more);
      t := Prefixed(Conv(mods, letter), u, f);
    }
  }

  lemma ConvFirst(mods: Bytes, letter: Byte, more: Bytes)
    ensures [37] + (mods + ([letter] + more)) == [37] + (mods + [letter]) + more
  {}

  lemma Prefixed(p: Piece, u: Layout, f: Bytes) returns (t: Layout)
    requires IsPiece(p) && IsLayout(u) && f == SpellPiece(p) + SpellLayout(u)
    ensures IsLayout(t) && SpellLayout(t) == f
  {
    t := Layout([p] + u.pieces, u.open);
    assert t.pieces[1..] == u.pieces && forall i :: 0 < i < |t.pieces| ==> t.pieces[i] == u.pieces[i - 1];
  }

  // ---------------------------------------------------------------- single conversions

  lemma {:induction false} OneConversion(f: CString, mods: seq<Mod>, letter: Byte, args: seq<Arg>)
    requires f == [37] + (SpellMods(mods) + [letter]) && AreMods(mods) && IsLetter(letter)
    ensures Output(f, Outside, args) == PieceText(Conv(mods, letter), args)
  {
    var t := Layout([Conv(mods, letter)], None);
    var none := t.pieces[1..];
    assert none == [] && SpellPieces(none, SpellOpen(t.open)) == [] && f + [] == f;
    FormatMeans(f, t, args);
    assert Meaning(none, ArgsAfter(t.pieces[0], args)) == [];
    assert PieceText(t.pieces[0], args) + [] == PieceText(t.pieces[0], args);
  }

  /** `%s` of a string is the string, and of NULL the six bytes of `(null)`. */
  lemma {:induction false} PercentS(t: Option<CString>)
    ensures Output([37, 115], Outside, [Text(t)]) ==
      if t.Some? then t.value else [40, 110, 117, 108, 108, 41]
  {
    assert [37] + (SpellMods([]) + [115]) == [37, 115];
    OneConversion([37, 115], [], 115, [Text(t)]);
  }

  /** `%d`, `%i`, `%u`, `%p` and `%R` print the number. */
  lemma {:induction false} PercentNumber(letter: Byte, digits: CString)
    requires letter in [100, 105, 117, 112, 82]
    ensures Output([37, letter], Outside, [Number(digits)]) == digits
  {
    assert [37] + (SpellMods([]) + [letter]) == [37, letter];
    OneConversion([37, letter], [], letter, [Number(digits)]);
  }

  /** A length in the format: the first `n` bytes of the string. */
  lemma {:induction false} PercentSized(f: CString, n: nat, t: CString)
    requires n > 0 && f == [37] + DecimalText(n) + [115]
    ensures Output(f, Outside, [Text(Some(t))]) == if n < |t| then t[..n] else t
  {
    var mods, none: seq<Mod> := [Size(n)], [];
    assert mods[1..] == none && SpellMods(mods) == DecimalText(n) + [] == DecimalText(n);
    OneConversion(f, mods, 115, [Text(Some(t))]);
    assert LengthGiven(n, none, [Text(Some(t))]) == n && Stars(none) == 0;
  }

  /** A length from the arguments: the first `w` bytes; all of them if it is 0 or negative. */
  lemma {:induction false} PercentStar(w: int, t: CString)
    ensures Output([37, 42, 115], Outside, [Width(w), Text(Some(t))]) == if 0 < w < |t| then t[..w] else t
  {
    var mods, none: seq<Mod> := [Star], [];
    var args := [Width(w), Text(Some(t))];
    assert mods[1..] == none && SpellMods(mods) == [42] + [] == [42] && [37] + ([42] + [115]) == [37, 42, 115];
    OneConversion([37, 42, 115], mods, 115, args);
    assert LengthGiven(w, none, Skip(args, 1)) == w && Stars(none) == 0 && Skip(args, 1) == [Text(Some(t))];
  }

  /** Literal text is printed as it is, before and after anything else. */
  lemma {:induction false} LiteralText(f: CString, text: CString, rest: CString, args: seq<Arg>)
    requires f == text + rest && forall i :: 0 <= i < |text| ==> text[i] != 37
    ensures Output(f, Outside, args) == text + Output(rest, Outside, args)
    decreases |text|
  {
    if text == [] {
      assert f == rest;
    } else {
      assert f == [text[0]] + (text[1..] + rest) && text == [text[0]] + text[1..];
      NulFreeParts(f, [text[0]], text[1..] + rest);
      NulFreeParts(text, [text[0]], text[1..]);
      CharStep(f, text[0], text[1..] + rest, args);
      LiteralText(text[1..] + rest, text[1..], rest, args);
    }
  }

  // ---------------------------------------------------------------- limited room

  function Least(a: int, b: int): int { if a < b then a else b }

  lemma {:induction false} BodyInIs(a: CString, space: bool, len: int, room: nat)
    ensures BodyIn(a, space, len, room) ==
      if len >= 0 then Body(a, space, Least(len, room)) else Fit(Body(a, space, len), room)
    decreases |a|
  {
    if a != [] && len != 0 && room > 0 {
      var n := if IsPrint(a[0], space) || len < 4 || room < 4 then 1 else 4;
      BodyInIs(Tail(a), space, len - n, room - n);
    }
  }

  /**
  With `room` bytes left a step prints the first of what it would print, except that a string
  printed by H is printed in that length, with dots for escapes that do not fit.
  */
  lemma {:induction false} EmissionInIs(e: Emit, room: nat)
    ensures EmissionIn(e, room) ==
      if e.Quoted? && e.arg.Some? && e.len >= 0 then Emission(e.(len := Least(e.len, room))) else Fit(Emission(e), room)
  {
    if e.Quoted? && e.arg.Some? {
      if e.len >= 0 {
        SizedIn(e.arg.value, e.len, e.alt, e.space, room);
      } else {
        UnsizedIn(e.arg.value, e.len, e.alt, e.space, room);
      }
    }
  }

  lemma WholeParts(x: Bytes, y: Bytes, z: Bytes, a: CString, len: int, alt: bool, space: bool)
    requires x == QuoteIf(alt, len) && y == Body(a, space, len - |x|) && z == QuoteIf(alt, len - |x| - |y|)
    ensures x + y + z == Emission(Quoted(Some(a), len, alt, space))
  {}

  lemma SizedParts(a: CString, len: nat, alt: bool, space: bool, room: nat, n: nat, x: Bytes, y: Bytes)
    requires n == Least(len, room) && x == QuoteIf(alt, n) && y == Body(a, space, n - |x|)
    ensures |x| <= n && x == QuoteIn(alt, len, room) && y == BodyIn(a, space, len - |x|, room - |x|)
    ensures |y| <= n - |x| && QuoteIf(alt, n - |x| - |y|) == QuoteIn(alt, len - |x| - |y|, room - |x| - |y|)
  {
    BodyInIs(a, space, len - |x|, room - |x|);
    BodyShort(a, space, n - |x|);
  }

  lemma SizedIn(a: CString, len: nat, alt: bool, space: bool, room: nat)
    ensures EmissionIn(Quoted(Some(a), len, alt, space), room) ==
      Emission(Quoted(Some(a), Least(len, room), alt, space))
  {
    var n: nat := Least(len, room);
    var x := QuoteIf(alt, n);
    var y := Body(a, space, n - |x|);
    SizedParts(a, len, alt, space, room, n, x, y);
    ThreeParts(x, y, QuoteIf(alt, n - |x| - |y|), room, a, len, alt, space);
    WholeParts(x, y, QuoteIf(alt, n - |x| - |y|), a, n, alt, space);
  }

  lemma UnsizedParts(a: CString, len: int, alt: bool, space: bool, room: nat, x: Bytes, y: Bytes)
    requires len < 0 && x == Fit(if alt then [34] else [], room) && y == Fit(Dotted(a, space), room - |x|)
    ensures x == QuoteIn(alt, len, room) && y == BodyIn(a, space, len - |x|, room - |x|)
    ensures Fit(if alt then [34] else [], room - |x| - |y|) == QuoteIn(alt, len - |x| - |y|, room - |x| - |y|)
  {
    BodyInIs(a, space, len - |x|, room - |x|);
    DottedBody(a, space, len - |x|);
  }

  lemma UnsizedIn(a: CString, len: int, alt: bool, space: bool, room: nat)
    requires len < 0
    ensures EmissionIn(Quoted(Some(a), len, alt, space), room) ==
      Fit(Emission(Quoted(Some(a), len, alt, space)), room)
  {
    var quote: Bytes := if alt then [34] else [];
    var x := Fit(quote, room);
    var y := Fit(Dotted(a, space), room - |x|);
    UnsizedParts(a, len, alt, space, room, x, y);
    ThreeParts(x, y, Fit(quote, room - |x| - |y|), room, a, len, alt, space);
    UnsizedWhole(a, len, alt, space, quote, Dotted(a, space));
    FitThree(quote, Dotted(a, space), room, x, y);
  }

  lemma UnsizedWhole(a: CString, len: int, alt: bool, space: bool, quote: Bytes, body: Bytes)
    requires len < 0 && quote == (if alt then [34] else []) && body == Dotted(a, space)
    ensures Emission(Quoted(Some(a), len, alt, space)) == quote + body + quote
  {
    NegativeIs(a, alt, space, len);
    assert [] + body + [] == body;
  }

  lemma FitThree(quote: Bytes, body: Bytes, room: nat, x: Bytes, y: Bytes)
    requires x == Fit(quote, room) && y == Fit(body, room - |x|)
    ensures Fit(quote + body + quote, room) == x + y + Fit(quote, room - |x| - |y|)
  {}
}
