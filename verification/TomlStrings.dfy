/** Strings and keys: the writer, which picks a bare, literal or escaped form, and the reader,
    which must get the same code points back. */
module TomlStrings {
  import opened Wrappers
  import opened TomlChars
  import TomlIntegers

  const QUOTE := '"' as int
  const APOSTROPHE := '\'' as int
  const BACKSLASH := '\\' as int
  const NEWLINE := '\n' as int
  const RETURN := '\r' as int
  const TAB := '\t' as int

  // ---------- The writer ----------

  /** The formatter's configuration and the three arguments of `print_string`. */
  datatype Style = Style(
    literalAllowed: bool,
    unicodeAllowed: bool,
    realTabs: bool,
    multiLineAllowed: bool,
    allowMultiLine: bool,
    allowBare: bool,
    allowLiteralWhitespace: bool)
  {
    predicate RealTabsAllowed() { allowLiteralWhitespace && realTabs }
  }

  /** What the first scan of the string finds out. */
  datatype Traits = Traits(
    lineBreaks: bool,
    tabs: bool,
    controlChars: bool,
    singleQuotes: bool,
    nonBare: bool,
    nonAscii: bool)

  predicate IsPlain(c: int) { c != NEWLINE && c != TAB && c != APOSTROPHE }

  function TraitsOf(str: Text, allowBare: bool): Traits {
    Traits(
      NEWLINE in str,
      TAB in str,
      exists k :: 0 <= k < |str| && IsPlain(str[k])
        && (IsControlCharacter(str[k]) || IsNonAsciiVerticalWhitespace(str[k])),
      APOSTROPHE in str,
      !allowBare || exists k :: 0 <= k < |str| && IsPlain(str[k]) && !IsBareKeyCharacter(str[k]),
      exists k :: 0 <= k < |str| && str[k] > 0x7F)
  }

  datatype Form = Empty | Bare | Literal(multi: bool) | Basic(multi: bool)

  function ChooseForm(str: Text, style: Style): Form {
    if str == [] then Empty
    else
      var t := TraitsOf(str, style.allowBare);
      var nonBare := t.nonBare || t.lineBreaks || t.tabs || t.singleQuotes;
      if !nonBare && (!t.nonAscii || style.unicodeAllowed) then Bare
      else
        var multi := style.allowLiteralWhitespace && style.allowMultiLine && style.multiLineAllowed && t.lineBreaks;
        var literal := && style.literalAllowed
                       && !t.controlChars
                       && (!t.singleQuotes || multi)
                       && (!t.tabs || style.RealTabsAllowed())
                       && (!t.lineBreaks || multi)
                       && (!t.nonAscii || style.unicodeAllowed);
        if literal then Literal(multi) else Basic(multi)
  }

  /** Control characters without a short escape. */
  function LongControlEscape(c: int): Text
    requires 0 <= c <= 0x1F
  {
    [BACKSLASH, 'u' as int, '0' as int, '0' as int,
     TomlIntegers.DigitCharacter(c / 16), TomlIntegers.DigitCharacter(c % 16)]
  }

  function ControlEscape(c: int): Text
    requires 0 <= c <= 0x1F
  {
    if c == 0x08 then [BACKSLASH, 'b' as int]
    else if c == 0x09 then [BACKSLASH, 't' as int]
    else if c == 0x0A then [BACKSLASH, 'n' as int]
    else if c == 0x0C then [BACKSLASH, 'f' as int]
    else if c == 0x0D then [BACKSLASH, 'r' as int]
    else LongControlEscape(c)
  }

  const DELETE_ESCAPE: Text := [BACKSLASH, 'u' as int, '0' as int, '0' as int, '7' as int, 'F' as int]

  function UnicodeEscape(c: int): Text
    requires c > 0x7F
  {
    if c > 0xFFFF then [BACKSLASH, 'U' as int] + TomlIntegers.PrintInteger(c, TomlIntegers.Hexadecimal, 8)
    else [BACKSLASH, 'u' as int] + TomlIntegers.PrintInteger(c, TomlIntegers.Hexadecimal, 4)
  }

  /** What a basic string holds for one code point. */
  function Escaped(c: int, style: Style, multi: bool): Text
    requires IsScalar(c)
  {
    if c == QUOTE then [BACKSLASH, QUOTE]
    else if c == BACKSLASH then [BACKSLASH, BACKSLASH]
    else if c == 0x7F then DELETE_ESCAPE
    else if c == TAB then (if style.RealTabsAllowed() then [TAB] else [BACKSLASH, 't' as int])
    else if c == NEWLINE then (if multi then [NEWLINE] else [BACKSLASH, 'n' as int])
    else if c <= 0x1F then ControlEscape(c)
    else if c > 0x7F && (!style.unicodeAllowed || IsNonAsciiVerticalWhitespace(c)) then
      UnicodeEscape(c)
    else [c]
  }

  function EscapedAll(str: Text, style: Style, multi: bool): Text
    requires AllScalar(str)
  {
    if str == [] then [] else Escaped(str[0], style, multi) + EscapedAll(str[1..], style, multi)
  }

  function Delimiter(q: int, multi: bool): Text { if multi then [q, q, q] else [q] }

  /** `formatter::print_string`. */
  function Print(str: Text, style: Style): Text
    requires AllScalar(str)
  {
    match ChooseForm(str, style)
    case Empty => if style.literalAllowed then [APOSTROPHE, APOSTROPHE] else [QUOTE, QUOTE]
    case Bare => str
    case Literal(multi) => Delimiter(APOSTROPHE, multi) + str + Delimiter(APOSTROPHE, multi)
    case Basic(multi) => Delimiter(QUOTE, multi) + EscapedAll(str, style, multi) + Delimiter(QUOTE, multi)
  }

  // ---------- The reader ----------

  datatype Parsed = Parsed(value: Text, rest: Text)

  function Prepend(t: Text, r: Option<Parsed>): Option<Parsed> {
    match r
    case None => None
    case Some(p) => Some(Parsed(t + p.value, p.rest))
  }

  datatype LineBreakResult = NoBreak | Broken(rest: Text) | BadBreak

  function LineBreak(s: Text): (r: LineBreakResult)
    ensures r.Broken? ==> |r.rest| < |s|
  {
    if s == [] then NoBreak
    else if s[0] == 0x0B || s[0] == 0x0C then BadBreak
    else if s[0] == RETURN then (if |s| > 1 && s[1] == NEWLINE then Broken(s[2..]) else BadBreak)
    else if s[0] == NEWLINE then Broken(s[1..])
    else NoBreak
  }

  /** Spaces and tabs; any other horizontal whitespace is an error. */
  function LeadingWhitespace(s: Text): (r: Option<Text>)
    ensures r.Some? ==> |r.value| <= |s|
  {
    if s == [] || !IsHorizontalWhitespace(s[0]) then Some(s)
    else if !IsAsciiHorizontalWhitespace(s[0]) then None
    else LeadingWhitespace(s[1..])
  }

  /** How many of the next characters are `q`, looking no further than five. */
  function QuoteRun(s: Text, q: int, limit: nat): (n: nat)
    ensures n <= |s| && n <= limit
    ensures forall k :: 0 <= k < n ==> s[k] == q
    ensures n < limit && n < |s| ==> s[n] != q
  {
    if limit == 0 || s == [] || s[0] != q then 0 else 1 + QuoteRun(s[1..], q, limit - 1)
  }

  function Quotes(q: int, n: nat): Text { if n == 0 then [] else [q] + Quotes(q, n - 1) }

  /** `n` hexadecimal digits after `\u` or `\U`. */
  function HexSequence(s: Text, n: nat, acc: int): (r: Option<(int, Text)>)
    ensures r.Some? ==> |r.value.1| <= |s|
    decreases n
  {
    if n == 0 then
      if IsSurrogate(acc) || acc > 0x10FFFF then None else Some((acc, s))
    else if s == [] || !IsHexadecimalDigit(s[0]) then None
    else HexSequence(s[1..], n - 1, acc * 16 + HexToDec(s[0]))
  }

  function EscapedCodePoint(s: Text): (r: Option<(int, Text)>)
    requires s != []
    ensures r.Some? ==> |r.value.1| < |s|
  {
    if s[0] == 'b' as int then Some((0x08, s[1..]))
    else if s[0] == 'f' as int then Some((0x0C, s[1..]))
    else if s[0] == 'n' as int then Some((NEWLINE, s[1..]))
    else if s[0] == 'r' as int then Some((RETURN, s[1..]))
    else if s[0] == 't' as int then Some((TAB, s[1..]))
    else if s[0] == QUOTE then Some((QUOTE, s[1..]))
    else if s[0] == BACKSLASH then Some((BACKSLASH, s[1..]))
    else if s[0] == 'u' as int then HexSequence(s[1..], 4, 0)
    else if s[0] == 'U' as int then HexSequence(s[1..], 8, 0)
    else None
  }

  /** The rest of a basic string: its value and what follows the closing delimiter. */
  function BasicBody(s: Text, multi: bool, skipping: bool): Option<Parsed>
    decreases |s|, 1
  {
    if s == [] then None
    else if s[0] == QUOTE then
      if !multi then Some(Parsed([], s[1..]))
      else
        var n := QuoteRun(s, QUOTE, 5);
        if n <= 2 then Prepend(Quotes(QUOTE, n), BasicBody(s[n..], multi, false))
        else Some(Parsed(Quotes(QUOTE, n - 3), s[n..]))
    else if s[0] == BACKSLASH then AfterBackslash(s[1..], multi)
    else if multi && IsAsciiVerticalWhitespace(s[0]) then
      match LineBreak(s)
      case Broken(rest) => Prepend(if skipping then [] else [NEWLINE], BasicBody(rest, multi, skipping))
      case _ => None
    else if IsNonTabControlCharacter(s[0]) || IsSurrogate(s[0]) then None
    else if multi && skipping && IsHorizontalWhitespace(s[0]) then BasicBody(s[1..], multi, true)
    else Prepend([s[0]], BasicBody(s[1..], multi, false))
  }

  function AfterBackslash(s: Text, multi: bool): Option<Parsed>
    decreases |s|, 2
  {
    if s == [] then None
    else if multi && IsWhitespace(s[0]) then
      match LeadingWhitespace(s)
      case None => None
      case Some(t) =>
        (match LineBreak(t)
         case Broken(rest) => BasicBody(rest, multi, true)
         case _ => None)
    else
      match EscapedCodePoint(s)
      case None => None
      case Some((c, rest)) => Prepend([c], BasicBody(rest, multi, false))
  }

  function LiteralBody(s: Text, multi: bool): Option<Parsed>
    decreases |s|
  {
    if s == [] then None
    else if s[0] == APOSTROPHE then
      if !multi then Some(Parsed([], s[1..]))
      else
        var n := QuoteRun(s, APOSTROPHE, 5);
        if n <= 2 then Prepend(Quotes(APOSTROPHE, n), LiteralBody(s[n..], multi))
        else Some(Parsed(Quotes(APOSTROPHE, n - 3), s[n..]))
    else if multi && IsAsciiVerticalWhitespace(s[0]) then
      match LineBreak(s)
      case Broken(rest) => Prepend([NEWLINE], LiteralBody(rest, multi))
      case _ => None
    else if IsNonTabControlCharacter(s[0]) || IsSurrogate(s[0]) then None
    else Prepend([s[0]], LiteralBody(s[1..], multi))
  }

  /** A string after its opening delimiter; multi-line strings drop one line break first. */
  function StringBody(q: int, s: Text, multi: bool): Option<Parsed> {
    var start := if !multi then Broken(s) else LineBreak(s);
    match start
    case BadBreak => None
    case NoBreak => if q == APOSTROPHE then LiteralBody(s, multi) else BasicBody(s, multi, false)
    case Broken(t) => if q == APOSTROPHE then LiteralBody(t, multi) else BasicBody(t, multi, false)
  }

  /** `parse_string`, from the first delimiter on. */
  function ParseString(s: Text): Option<Parsed>
    requires s != [] && (s[0] == QUOTE || s[0] == APOSTROPHE)
  {
    if |s| == 1 then None
    else if |s| == 2 then (if s[1] == s[0] then Some(Parsed([], [])) else None)
    else if s[1] == s[0] && s[2] == s[0] then StringBody(s[0], s[3..], true)
    else StringBody(s[0], s[1..], false)
  }

  /** `parse_bare_key_segment`. */
  function BareSegment(s: Text): Parsed {
    if s == [] || !IsBareKeyCharacter(s[0]) then Parsed([], s)
    else var p := BareSegment(s[1..]); Parsed([s[0]] + p.value, p.rest)
  }

  /** How `parse_key` reads one segment, and `parse_value` a string. */
  function ParseSegment(s: Text): Option<Parsed> {
    if s == [] then None
    else if IsBareKeyCharacter(s[0]) then Some(BareSegment(s))
    else if s[0] == QUOTE || s[0] == APOSTROPHE then ParseString(s)
    else None
  }

  // ---------- Escapes ----------

  /** Reading hexadecimal digits by place value. */
  lemma {:induction false} HexSequenceReads(ds: Text, t: Text, acc: int)
    requires TomlIntegers.AllDigits(TomlIntegers.Hexadecimal, ds)
    ensures HexSequence(ds + t, |ds|, acc)
            == HexSequence(t, 0, acc * TomlIntegers.Pow(16, |ds|) + TomlIntegers.Value(TomlIntegers.Hexadecimal, ds))
    decreases |ds|
  {
    if ds == [] {
      assert ds + t == t;
    } else {
      var d, rest := HexToDec(ds[0]), ds[1..];
      assert (ds + t)[1..] == rest + t;
      HexSequenceReads(rest, t, acc * 16 + d);
      TomlIntegers.ValuePrepend(TomlIntegers.Hexadecimal, ds[0], rest);
      assert ds == [ds[0]] + rest;
      Horner(acc, d, TomlIntegers.Pow(16, |rest|));
    }
  }

  lemma {:induction false} Horner(acc: int, d: int, p: int)
    ensures (acc * 16 + d) * p == acc * (16 * p) + p * d
  {
  }

  /** Padding with zeros keeps the value. */
  lemma {:induction false} PaddedHex(c: int, n: nat)
    requires 0 < c < TomlIntegers.Pow(16, n) && n > 0
    ensures var all := TomlIntegers.PrintInteger(c, TomlIntegers.Hexadecimal, n);
            |all| == n && TomlIntegers.AllDigits(TomlIntegers.Hexadecimal, all)
              && TomlIntegers.Value(TomlIntegers.Hexadecimal, all) == c
  {
    var base, ds := TomlIntegers.Hexadecimal, TomlIntegers.ToDigits(TomlIntegers.Hexadecimal, c);
    TomlIntegers.ToDigitsValue(base, c);
    TomlIntegers.ToDigitsLength(base, c, n);
    hide TomlIntegers.ToDigits, TomlIntegers.Pow, TomlIntegers.Value;
    var zeros := TomlIntegers.Zeros(n - |ds|);
    var all := zeros + ds;
    assert TomlIntegers.PrintInteger(c, base, n) == all && |all| == n;
    assert all[|zeros|..] == ds;
    TomlIntegers.ValueIgnoresLeadingZeros(base, all, |zeros|);
  }

  /** A code point printed as `n` hexadecimal digits is read back. */
  lemma {:induction false} HexEscapeReads(c: int, n: nat, t: Text)
    requires IsScalar(c) && 0 < c < TomlIntegers.Pow(16, n) && n > 0
    ensures HexSequence(TomlIntegers.PrintInteger(c, TomlIntegers.Hexadecimal, n) + t, n, 0) == Some((c, t))
  {
    PaddedHex(c, n);
    HexSequenceReads(TomlIntegers.PrintInteger(c, TomlIntegers.Hexadecimal, n), t, 0);
  }

  lemma {:induction false} FourAndEightDigits()
    ensures TomlIntegers.Pow(16, 4) == 0x1_0000 && TomlIntegers.Pow(16, 8) == 0x1_0000_0000
  {
  }

  lemma {:induction false} LongControlEscapeReads(c: int, t: Text)
    requires 0 <= c <= 0x1F
    ensures EscapedCodePoint(LongControlEscape(c)[1..] + t) == Some((c, t))
  {
    var high, low := TomlIntegers.DigitCharacter(c / 16), TomlIntegers.DigitCharacter(c % 16);
    assert LongControlEscape(c)[1..] + t == ['u' as int] + ([TomlIntegers.ZERO, TomlIntegers.ZERO, high, low] + t);
    FourDigitsRead(TomlIntegers.ZERO, TomlIntegers.ZERO, high, low, t);
  }

  /** Four digits after `u`, spelled out. */
  lemma {:induction false} FourDigitsRead(a: int, b: int, c: int, d: int, t: Text)
    requires IsHexadecimalDigit(a) && IsHexadecimalDigit(b) && IsHexadecimalDigit(c) && IsHexadecimalDigit(d)
    ensures EscapedCodePoint(['u' as int] + ([a, b, c, d] + t))
            == HexSequence(t, 0, HexToDec(a) * 4096 + HexToDec(b) * 256 + HexToDec(c) * 16 + HexToDec(d))
  {
    hide HexSequence, HexToDec, IsHexadecimalDigit;
    var x, y, z := HexToDec(a), HexToDec(a) * 16 + HexToDec(b), (HexToDec(a) * 16 + HexToDec(b)) * 16 + HexToDec(c);
    DigitReads(a, [b, c, d] + t, 4, 0);
    DigitReads(b, [c, d] + t, 3, x);
    DigitReads(c, [d] + t, 2, y);
    DigitReads(d, t, 1, z);
    assert [a, b, c, d] + t == [a] + ([b, c, d] + t);
    assert [b, c, d] + t == [b] + ([c, d] + t);
    assert [c, d] + t == [c] + ([d] + t);
    assert (['u' as int] + ([a, b, c, d] + t))[1..] == [a, b, c, d] + t;
  }

  lemma {:induction false} DigitReads(d: int, t: Text, n: nat, acc: int)
    requires n > 0 && IsHexadecimalDigit(d)
    ensures HexSequence([d] + t, n, acc) == HexSequence(t, n - 1, acc * 16 + HexToDec(d))
  {
    assert ([d] + t)[1..] == t;
  }

  /** The parser reads back what the writer escaped, whatever follows. */
  lemma {:induction false} EscapedReads(c: int, style: Style, multi: bool, t: Text)
    requires IsScalar(c)
    ensures BasicBody(Escaped(c, style, multi) + t, multi, false) == Prepend([c], BasicBody(t, multi, false))
  {
    var e := Escaped(c, style, multi);
    if e[0] == BACKSLASH {
      EscapeReads(c, style, multi, t);
      BackslashReads(e, c, multi, t);
    } else {
      assert e == [c];
      RawReads(c, style, multi, t);
    }
  }

  lemma {:induction false} BackslashReads(e: Text, c: int, multi: bool, t: Text)
    requires |e| > 1 && e[0] == BACKSLASH && !IsWhitespace(e[1])
    requires EscapedCodePoint(e[1..] + t) == Some((c, t))
    ensures BasicBody(e + t, multi, false) == Prepend([c], BasicBody(t, multi, false))
  {
    hide EscapedCodePoint, IsWhitespace;
    var s := e + t;
    assert s[0] == BACKSLASH && s[1..] == e[1..] + t && s[1..][0] == e[1];
  }

  lemma {:induction false} RawReads(c: int, style: Style, multi: bool, t: Text)
    requires IsScalar(c) && Escaped(c, style, multi) == [c]
    ensures BasicBody([c] + t, multi, false) == Prepend([c], BasicBody(t, multi, false))
  {
  }

  lemma {:induction false} EscapeLetter(c: int, style: Style, multi: bool)
    requires IsScalar(c) && Escaped(c, style, multi)[0] == BACKSLASH
    ensures !IsWhitespace(Escaped(c, style, multi)[1])
  {
    hide TomlIntegers.PrintInteger, TomlIntegers.DigitCharacter;
  }

  lemma {:induction false} EscapeReads(c: int, style: Style, multi: bool, t: Text)
    requires IsScalar(c) && Escaped(c, style, multi)[0] == BACKSLASH
    ensures EscapedCodePoint(Escaped(c, style, multi)[1..] + t) == Some((c, t))
    ensures !IsWhitespace(Escaped(c, style, multi)[1])
  {
    EscapeLetter(c, style, multi);
    hide HexSequence, TomlIntegers.PrintInteger, TomlIntegers.DigitCharacter, IsWhitespace,
      IsNonAsciiVerticalWhitespace;
    var e := Escaped(c, style, multi);
    if c > 0x7F {
      UnicodeEscapeReads(c, t);
    } else if |e| == 2 {
      assert (e[1..] + t)[1..] == t;
    } else {
      DeleteEscapeReads(t);
      if c != 0x7F { LongControlEscapeReads(c, t); }
    }
  }

  lemma {:induction false} UnicodeEscapeReads(c: int, t: Text)
    requires IsScalar(c) && c > 0x7F
    ensures EscapedCodePoint(UnicodeEscape(c)[1..] + t) == Some((c, t))
  {
    FourAndEightDigits();
    hide HexSequence, TomlIntegers.PrintInteger, TomlIntegers.Pow;
    var n := if c > 0xFFFF then 8 else 4;
    HexEscapeReads(c, n, t);
    assert (UnicodeEscape(c)[1..] + t)[1..] == TomlIntegers.PrintInteger(c, TomlIntegers.Hexadecimal, n) + t;
  }

  lemma {:induction false} DeleteEscapeReads(t: Text)
    ensures EscapedCodePoint(DELETE_ESCAPE[1..] + t) == Some((0x7F, t))
  {
    assert DELETE_ESCAPE[1..] + t
      == ['u' as int] + ([TomlIntegers.ZERO, TomlIntegers.ZERO, '7' as int, 'F' as int] + t);
    FourDigitsRead(TomlIntegers.ZERO, TomlIntegers.ZERO, '7' as int, 'F' as int, t);
  }

  // ---------- Bodies ----------

  lemma {:induction false} PrependPrepend(a: Text, b: Text, r: Option<Parsed>)
    ensures Prepend(a, Prepend(b, r)) == Prepend(a + b, r)
  {
    if r.Some? { assert a + (b + r.value.value) == a + b + r.value.value; }
  }

  lemma {:induction false} PrependNothing(r: Option<Parsed>)
    ensures Prepend([], r) == r
  {
    if r.Some? { assert [] + r.value.value == r.value.value; }
  }

  lemma {:induction false} EscapedAllSplit(str: Text, style: Style, multi: bool, t: Text)
    requires str != [] && AllScalar(str)
    ensures EscapedAll(str, style, multi) + t
            == Escaped(str[0], style, multi) + (EscapedAll(str[1..], style, multi) + t)
  {
  }

  lemma {:induction false} EscapedAllReads(str: Text, style: Style, multi: bool, t: Text)
    requires AllScalar(str)
    ensures BasicBody(EscapedAll(str, style, multi) + t, multi, false) == Prepend(str, BasicBody(t, multi, false))
  {
    if str == [] {
      assert EscapedAll(str, style, multi) + t == t;
      PrependNothing(BasicBody(t, multi, false));
    } else {
      EscapedReads(str[0], style, multi, EscapedAll(str[1..], style, multi) + t);
      EscapedAllReads(str[1..], style, multi, t);
      EscapedAllSplit(str, style, multi, t);
      hide *;
      PrependPrepend([str[0]], str[1..], BasicBody(t, multi, false));
      assert str == [str[0]] + str[1..];
    }
  }

  predicate LiteralCharacter(c: int, multi: bool) {
    IsScalar(c) && c != APOSTROPHE && (!IsNonTabControlCharacter(c) || (multi && c == NEWLINE))
  }

  lemma {:induction false} LiteralReads(str: Text, multi: bool, t: Text)
    requires forall k :: 0 <= k < |str| ==> LiteralCharacter(str[k], multi)
    ensures LiteralBody(str + t, multi) == Prepend(str, LiteralBody(t, multi))
  {
    if str == [] {
      assert str + t == t;
      PrependNothing(LiteralBody(t, multi));
    } else {
      assert (str + t)[1..] == str[1..] + t;
      LiteralReads(str[1..], multi, t);
      PrependPrepend([str[0]], str[1..], LiteralBody(t, multi));
      assert str == [str[0]] + str[1..];
      assert LiteralCharacter(str[0], multi);
    }
  }

  lemma {:induction false} QuoteRunIs(s: Text, q: int, limit: nat, n: nat)
    requires n <= |s| && n <= limit
    requires forall k :: 0 <= k < n ==> s[k] == q
    requires n == limit || n == |s| || s[n] != q
    ensures QuoteRun(s, q, limit) == n
  {
  }

  /** Three closing quotes end the string exactly when no quote follows. */
  lemma {:induction false} ClosingRun(q: int, r: Text)
    ensures var n := QuoteRun([q, q, q] + r, q, 5);
            3 <= n <= 5 && (n == 3 <==> r == [] || r[0] != q) && ([q, q, q] + r)[n..] == r[n - 3..]
  {
    var s := [q, q, q] + r;
    var n := QuoteRun(s, q, 5);
    if |r| > 0 { assert s[3] == r[0]; }
  }

  lemma {:induction false} BasicClosing(r: Text)
    ensures var p := BasicBody([QUOTE, QUOTE, QUOTE] + r, true, false);
            p.Some? && (p.value == Parsed([], r) <==> r == [] || r[0] != QUOTE)
            && (r != [] && r[0] == QUOTE ==> |p.value.rest| < |r|)
  {
    ClosingRun(QUOTE, r);
  }

  // ---------- Multi-line literal strings ----------

  /** No three apostrophes in a row. */
  predicate NoTriple(str: Text) {
    forall k :: 0 <= k && k + 2 < |str| ==> !TripleAt(str, k)
  }

  predicate TripleAt(str: Text, k: nat)
    requires k + 2 < |str|
  {
    str[k] == APOSTROPHE && str[k + 1] == APOSTROPHE && str[k + 2] == APOSTROPHE
  }

  predicate EndsWithTwo(str: Text) {
    |str| >= 2 && str[|str| - 1] == APOSTROPHE && str[|str| - 2] == APOSTROPHE
  }

  /** When a multi-line literal string is closed where its writer meant it to be. */
  predicate ClosesInPlace(str: Text, r: Text) {
    NoTriple(str) && (r == [] || r[0] != APOSTROPHE || EndsWithTwo(str))
  }

  const TRIPLE: Text := [APOSTROPHE, APOSTROPHE, APOSTROPHE]

  lemma {:induction false} ClosesInPlaceDrop(str: Text, m: nat, r: Text)
    requires m < |str| && m <= 2 && str[m] != APOSTROPHE
    requires forall k :: 0 <= k < m ==> str[k] == APOSTROPHE
    ensures ClosesInPlace(str, r) <==> ClosesInPlace(str[m + 1..], r)
  {
    var t := str[m + 1..];
    forall k: nat | k + 2 < |t| ensures TripleAt(t, k) <==> TripleAt(str, k + m + 1) {
    }
    if NoTriple(str) {
      forall k: nat | k + 2 < |t| ensures !TripleAt(t, k) {
        assert !TripleAt(str, k + m + 1);
      }
    }
    if NoTriple(t) {
      forall k: nat | k + 2 < |str| ensures !TripleAt(str, k) {
        if k > m { assert !TripleAt(t, k - m - 1); }
      }
    }
  }

  /** Some prefix of apostrophes, then the rest. */
  function LeadingRun(str: Text): (m: nat)
    ensures m <= |str|
    ensures forall k :: 0 <= k < m ==> str[k] == APOSTROPHE
    ensures m < |str| ==> str[m] != APOSTROPHE
  {
    if str == [] || str[0] != APOSTROPHE then 0 else 1 + LeadingRun(str[1..])
  }

  lemma {:induction false} LiteralShrinks(s: Text, multi: bool)
    ensures LiteralBody(s, multi).Some? ==>
              && |LiteralBody(s, multi).value.rest| < |s|
              && (multi ==> |LiteralBody(s, multi).value.value| + 3 + |LiteralBody(s, multi).value.rest| <= |s|)
    decreases |s|
  {
    if s != [] {
      if s[0] == APOSTROPHE {
        if multi {
          var n := QuoteRun(s, APOSTROPHE, 5);
          QuotesLength(APOSTROPHE, n);
          if n <= 2 {
            if n > 0 { LiteralShrinks(s[n..], multi); }
          } else {
            QuotesLength(APOSTROPHE, n - 3);
          }
        }
      } else if multi && IsAsciiVerticalWhitespace(s[0]) {
        match LineBreak(s)
        case Broken(rest) => LiteralShrinks(rest, multi);
        case _ =>
      } else {
        LiteralShrinks(s[1..], multi);
      }
    }
  }

  lemma {:induction false} QuotesLength(q: int, n: nat)
    ensures |Quotes(q, n)| == n && forall k :: 0 <= k < n ==> Quotes(q, n)[k] == q
  {
    if n > 0 { QuotesLength(q, n - 1); }
  }

  predicate MultiLiteralText(str: Text) {
    forall k :: 0 <= k < |str| ==> LiteralCharacter(str[k], true) || str[k] == APOSTROPHE
  }

  lemma {:induction false} PrependCancels(a: Text, b: Text, rest: Text, r: Option<Parsed>)
    ensures Prepend(a, r) == Some(Parsed(a + b, rest)) <==> r == Some(Parsed(b, rest))
  {
    if r.Some? && Prepend(a, r) == Some(Parsed(a + b, rest)) {
      assert r.value.value == (a + r.value.value)[|a|..] == (a + b)[|a|..] == b;
    }
  }

  lemma {:induction false} QuotesArePrefix(str: Text, m: nat)
    requires m <= |str| && forall k :: 0 <= k < m ==> str[k] == APOSTROPHE
    ensures Quotes(APOSTROPHE, m) == str[..m]
  {
    QuotesLength(APOSTROPHE, m);
  }

  /** One or two apostrophes and then an ordinary character. */
  lemma {:induction false} MultiLiteralStep(str: Text, m: nat, t: Text)
    requires m < |str| && m <= 2 && LiteralCharacter(str[m], true)
    requires forall k :: 0 <= k < m ==> str[k] == APOSTROPHE
    ensures LiteralBody(str + t, true) == Prepend(str[..m + 1], LiteralBody(str[m + 1..] + t, true))
  {
    var s, after := str + t, str[m + 1..] + t;
    var u := s[m..];
    assert u[0] == str[m] && u[1..] == after;
    assert LiteralBody(u, true) == Prepend([str[m]], LiteralBody(after, true));
    hide LiteralCharacter;
    if m == 0 {
      assert u == s && str[..1] == [str[0]];
    } else {
      QuoteRunIs(s, APOSTROPHE, 5, m);
      QuotesArePrefix(str, m);
      PrependPrepend(str[..m], [str[m]], LiteralBody(after, true));
      assert str[..m] + [str[m]] == str[..m + 1];
    }
  }

  /** Nothing but apostrophes up to the closing delimiter. */
  lemma {:induction false} OnlyApostrophes(str: Text, r: Text)
    requires forall k :: 0 <= k < |str| ==> str[k] == APOSTROPHE
    ensures LiteralBody(str + TRIPLE + r, true) == Some(Parsed(str, r))
            <==> |str| <= 2 && (r == [] || r[0] != APOSTROPHE || |str| == 2)
  {
    var m, s := |str|, str + TRIPLE + r;
    var n := QuoteRun(s, APOSTROPHE, 5);
    forall k | 0 <= k < m + 3 ensures s[k] == APOSTROPHE {
    }
    QuoteRunAtLeast(s, APOSTROPHE, 5, if m + 3 < 5 then m + 3 else 5);
    QuotesLength(APOSTROPHE, n - 3);
    if r != [] { assert s[m + 3] == r[0]; }
    if n == m + 3 {
      assert s[n..] == r;
      QuotesArePrefix(str, m);
      assert str[..m] == str;
    }
  }

  lemma {:induction false} QuoteRunAtLeast(s: Text, q: int, limit: nat, n: nat)
    requires n <= |s| && n <= limit
    requires forall k :: 0 <= k < n ==> s[k] == q
    ensures QuoteRun(s, q, limit) >= n
  {
  }

  /** A multi-line literal string is read back exactly when it holds no three apostrophes in a
      row and no quote that follows it can be taken for one of its own. */
  lemma {:induction false} MultiLiteralReads(str: Text, r: Text)
    requires MultiLiteralText(str)
    ensures LiteralBody(str + TRIPLE + r, true) == Some(Parsed(str, r)) <==> ClosesInPlace(str, r)
    decreases |str|
  {
    var m := LeadingRun(str);
    if m == |str| {
      OnlyApostrophes(str, r);
      if m >= 3 { assert TripleAt(str, 0); }
    } else if m >= 3 {
      assert TripleAt(str, 0);
      TooManyApostrophes(str, m, r);
    } else {
      var tail := str[m + 1..];
      assert str + TRIPLE + r == str + (TRIPLE + r) && tail + TRIPLE + r == tail + (TRIPLE + r);
      MultiLiteralStep(str, m, TRIPLE + r);
      MultiLiteralReads(tail, r);
      ClosesInPlaceDrop(str, m, r);
      PrependCancels(str[..m + 1], tail, r, LiteralBody(tail + TRIPLE + r, true));
      assert str[..m + 1] + tail == str;
    }
  }

  lemma {:induction false} TooManyApostrophes(str: Text, m: nat, r: Text)
    requires 3 <= m < |str| && forall k :: 0 <= k < m ==> str[k] == APOSTROPHE
    ensures LiteralBody(str + TRIPLE + r, true).Some?
    ensures |LiteralBody(str + TRIPLE + r, true).value.rest| > |r|
  {
  }

  // ---------- Reading back what was written ----------

  predicate Starts(r: Text, q: int) { r != [] && r[0] == q }

  /** What the chosen form needs of the text around the string. Only a multi-line string can
      lose its value by its own content: the reader drops a line break that directly follows
      the opening delimiter, and three apostrophes end a literal. */
  predicate Faithful(str: Text, style: Style, r: Text) {
    match ChooseForm(str, style)
    case Empty => !Starts(r, if style.literalAllowed then APOSTROPHE else QUOTE)
    case Bare => r == [] || !IsBareKeyCharacter(r[0])
    case Literal(multi) => multi ==> !Starts(str, NEWLINE) && ClosesInPlace(str, r)
    case Basic(multi) => multi ==> !Starts(str, NEWLINE) && !Starts(r, QUOTE)
  }

  lemma {:induction false} EmptyReads(q: int, r: Text)
    requires q == QUOTE || q == APOSTROPHE
    ensures ParseString([q, q] + r) == Some(Parsed([], r)) <==> !Starts(r, q)
  {
    var s := [q, q] + r;
    if r != [] {
      assert s[2] == r[0];
      if r[0] == q {
        StringShrinks(q, s[3..], true);
      } else {
        assert s[1..][1..] == r;
        assert s[1..][0] == q;
      }
    }
  }

  lemma {:induction false} BasicShrinks(s: Text, multi: bool, skipping: bool)
    ensures BasicBody(s, multi, skipping).Some? ==> |BasicBody(s, multi, skipping).value.rest| < |s|
    decreases |s|, 1
  {
    if s != [] {
      if s[0] == QUOTE {
        if multi {
          var n := QuoteRun(s, QUOTE, 5);
          QuoteRunAtLeast(s, QUOTE, 5, 1);
          if n <= 2 { BasicShrinks(s[n..], multi, false); }
        }
      } else if s[0] == BACKSLASH {
        EscapeShrinks(s[1..], multi);
      } else if multi && IsAsciiVerticalWhitespace(s[0]) {
        match LineBreak(s)
        case Broken(rest) => BasicShrinks(rest, multi, skipping);
        case _ =>
      } else {
        BasicShrinks(s[1..], multi, true);
        BasicShrinks(s[1..], multi, false);
      }
    }
  }

  lemma {:induction false} EscapeShrinks(s: Text, multi: bool)
    ensures AfterBackslash(s, multi).Some? ==> |AfterBackslash(s, multi).value.rest| < |s|
    decreases |s|, 2
  {
    if s != [] {
      if multi && IsWhitespace(s[0]) {
        match LeadingWhitespace(s)
        case None =>
        case Some(t) =>
          match LineBreak(t) {
            case Broken(rest) => BasicShrinks(rest, multi, true);
            case _ =>
          }
      } else {
        match EscapedCodePoint(s)
        case None =>
        case Some((c, rest)) => BasicShrinks(rest, multi, false);
      }
    }
  }

  lemma {:induction false} StringShrinks(q: int, s: Text, multi: bool)
    ensures StringBody(q, s, multi).Some? ==> |StringBody(q, s, multi).value.rest| < |s|
  {
    LiteralShrinks(s, multi);
    BasicShrinks(s, multi, false);
    match LineBreak(s)
    case Broken(t) => LiteralShrinks(t, multi); BasicShrinks(t, multi, false);
    case _ =>
  }

  lemma {:induction false} BareReads(str: Text, r: Text)
    requires forall k :: 0 <= k < |str| ==> IsBareKeyCharacter(str[k])
    ensures BareSegment(str + r) == Parsed(str, r) <==> r == [] || !IsBareKeyCharacter(r[0])
    ensures |BareSegment(str + r).rest| <= |r|
  {
    if str == [] {
      assert str + r == r;
      if r != [] { BareShrinks(r[1..]); }
    } else {
      assert (str + r)[1..] == str[1..] + r;
      BareReads(str[1..], r);
      assert str == [str[0]] + str[1..];
      var p := BareSegment(str[1..] + r);
      assert ([str[0]] + p.value)[1..] == p.value;
    }
  }

  lemma {:induction false} BareShrinks(s: Text)
    ensures |BareSegment(s).rest| <= |s|
  {
    if s != [] && IsBareKeyCharacter(s[0]) { BareShrinks(s[1..]); }
  }

  /** A single-line string with some content: its second character is not the delimiter. */
  lemma {:induction false} SingleLineDispatch(q: int, content: Text, r: Text)
    requires q == QUOTE || q == APOSTROPHE
    requires content != [] && content[0] != q
    ensures ParseString([q] + content + [q] + r) == StringBody(q, content + ([q] + r), false)
  {
    var s := [q] + content + [q] + r;
    assert s[1] == content[0];
    assert s[1..] == content + ([q] + r);
  }

  lemma {:induction false} MultiLineDispatch(q: int, content: Text, r: Text)
    requires q == QUOTE || q == APOSTROPHE
    ensures ParseString([q, q, q] + content + [q, q, q] + r) == StringBody(q, content + ([q, q, q] + r), true)
  {
    var s := [q, q, q] + content + [q, q, q] + r;
    assert s[3..] == content + ([q, q, q] + r);
  }

  lemma {:induction false} SingleLiteralReads(str: Text, r: Text)
    requires str != [] && forall k :: 0 <= k < |str| ==> LiteralCharacter(str[k], false)
    ensures ParseString([APOSTROPHE] + str + [APOSTROPHE] + r) == Some(Parsed(str, r))
  {
    assert LiteralCharacter(str[0], false);
    SingleLineDispatch(APOSTROPHE, str, r);
    LiteralReads(str, false, [APOSTROPHE] + r);
    assert ([APOSTROPHE] + r)[1..] == r && str + [] == str;
  }

  lemma {:induction false} EscapedStart(str: Text, style: Style, multi: bool)
    requires str != [] && AllScalar(str)
    ensures var e := EscapedAll(str, style, multi);
            e != [] && e[0] != QUOTE && e[0] != RETURN && e[0] != 0x0B && e[0] != 0x0C
            && (e[0] == NEWLINE <==> multi && str[0] == NEWLINE)
  {
  }

  lemma {:induction false} SingleBasicReads(str: Text, style: Style, r: Text)
    requires str != [] && AllScalar(str)
    ensures ParseString([QUOTE] + EscapedAll(str, style, false) + [QUOTE] + r) == Some(Parsed(str, r))
  {
    EscapedStart(str, style, false);
    SingleLineDispatch(QUOTE, EscapedAll(str, style, false), r);
    EscapedAllReads(str, style, false, [QUOTE] + r);
    assert ([QUOTE] + r)[1..] == r && str + [] == str;
  }

  lemma {:induction false} MultiBasicReads(str: Text, style: Style, r: Text)
    requires str != [] && AllScalar(str)
    ensures ParseString([QUOTE, QUOTE, QUOTE] + EscapedAll(str, style, true) + [QUOTE, QUOTE, QUOTE] + r)
            == Some(Parsed(str, r))
            <==> !Starts(str, NEWLINE) && !Starts(r, QUOTE)
  {
    var e, t := EscapedAll(str, style, true), [QUOTE, QUOTE, QUOTE] + r;
    EscapedStart(str, style, true);
    MultiLineDispatch(QUOTE, e, r);
    MultiBasicBodyReads(str, style, r);
    BasicClosing(r);
    hide *;
    PrependCancels(str, [], r, BasicBody(t, true, false));
    assert str + [] == str;
  }

  lemma {:induction false} NewlineStaysRaw(style: Style)
    ensures Escaped(NEWLINE, style, true) == [NEWLINE]
  {
  }

  lemma {:induction false} MultiBasicBodyReads(str: Text, style: Style, r: Text)
    requires str != [] && AllScalar(str)
    ensures var t := [QUOTE, QUOTE, QUOTE] + r;
            StringBody(QUOTE, EscapedAll(str, style, true) + t, true)
            == Prepend(if Starts(str, NEWLINE) then str[1..] else str, BasicBody(t, true, false))
  {
    var e, t := EscapedAll(str, style, true), [QUOTE, QUOTE, QUOTE] + r;
    EscapedStart(str, style, true);
    hide BasicBody, Prepend, Escaped, EscapedAll;
    assert (e + t)[0] == e[0];
    if Starts(str, NEWLINE) {
      NewlineStaysRaw(style);
      EscapedAllSplit(str, style, true, t);
      assert (e + t)[1..] == EscapedAll(str[1..], style, true) + t;
      EscapedAllReads(str[1..], style, true, t);
    } else {
      EscapedAllReads(str, style, true, t);
    }
  }

  lemma {:induction false} MultiLiteralStringReads(str: Text, r: Text)
    requires str != [] && MultiLiteralText(str)
    ensures ParseString(TRIPLE + str + TRIPLE + r) == Some(Parsed(str, r))
            <==> !Starts(str, NEWLINE) && ClosesInPlace(str, r)
  {
    MultiLineDispatch(APOSTROPHE, str, r);
    assert str + (TRIPLE + r) == str + TRIPLE + r;
    assert LiteralCharacter(str[0], true) || str[0] == APOSTROPHE;
    hide LiteralBody;
    if Starts(str, NEWLINE) {
      assert (str + TRIPLE + r)[1..] == str[1..] + TRIPLE + r;
      LiteralShrinks(str[1..] + TRIPLE + r, true);
    } else {
      MultiLiteralReads(str, r);
    }
  }

  lemma {:induction false} LiteralFormCharacters(str: Text, style: Style)
    requires AllScalar(str) && ChooseForm(str, style).Literal?
    ensures str != [] && MultiLiteralText(str)
    ensures !ChooseForm(str, style).multi ==> forall k :: 0 <= k < |str| ==> LiteralCharacter(str[k], false)
  {
  }

  lemma {:induction false} BareFormCharacters(str: Text, style: Style)
    requires ChooseForm(str, style).Bare?
    ensures str != [] && forall k :: 0 <= k < |str| ==> IsBareKeyCharacter(str[k])
  {
  }

  /** For every text, every configuration and everything that may follow: what was written is
      read back, up to exactly the end of the string, if and only if `Faithful` holds. */
  lemma {:induction false} ReadUndoesPrint(str: Text, style: Style, r: Text)
    requires AllScalar(str)
    ensures ParseSegment(Print(str, style) + r) == Some(Parsed(str, r)) <==> Faithful(str, style, r)
  {
    var p := Print(str, style);
    hide EscapedAll, BasicBody, LiteralBody, StringBody;
    match ChooseForm(str, style)
    case Empty =>
      EmptyReads(if style.literalAllowed then APOSTROPHE else QUOTE, r);
    case Bare =>
      BareFormCharacters(str, style);
      BareReads(str, r);
      assert (p + r)[0] == str[0];
    case Literal(multi) =>
      LiteralFormCharacters(str, style);
      assert (p + r)[0] == APOSTROPHE;
      if multi { MultiLiteralStringReads(str, r); } else { SingleLiteralReads(str, r); }
    case Basic(multi) =>
      assert (p + r)[0] == QUOTE;
      if multi { MultiBasicReads(str, style, r); } else { SingleBasicReads(str, style, r); }
  }

  /** Keys are written without line breaks, so every key survives in front of anything that
      cannot continue it. */
  lemma {:induction false} KeyRoundTrip(key: Text, style: Style, r: Text)
    requires AllScalar(key) && !style.allowMultiLine
    requires r == [] || (!IsBareKeyCharacter(r[0]) && r[0] != QUOTE && r[0] != APOSTROPHE)
    ensures ParseSegment(Print(key, style) + r) == Some(Parsed(key, r))
  {
    ReadUndoesPrint(key, style, r);
  }

  /** So does every string value without a line break. */
  lemma {:induction false} SingleLineValueRoundTrip(str: Text, style: Style, r: Text)
    requires AllScalar(str) && NEWLINE !in str && !style.allowBare
    requires r == [] || IsValueTerminator(r[0])
    ensures ParseSegment(Print(str, style) + r) == Some(Parsed(str, r))
  {
    ReadUndoesPrint(str, style, r);
  }

  /** Two values that do not survive: one that starts with a line break, and one that holds
      three apostrophes. */
  lemma {:induction false} LeadingBreakIsLost(str: Text, style: Style, r: Text)
    requires AllScalar(str) && Starts(str, NEWLINE)
    requires style.multiLineAllowed && style.allowMultiLine && style.allowLiteralWhitespace
    ensures !Faithful(str, style, r)
  {
    assert str[0] == NEWLINE;
  }

  lemma {:induction false} TripleEndsEarly(str: Text, style: Style, r: Text, k: nat)
    requires AllScalar(str) && k + 2 < |str| && TripleAt(str, k) && NEWLINE in str
    requires forall i :: 0 <= i < |str| ==> str[i] == NEWLINE || 0x20 <= str[i] < 0x7F
    requires style.literalAllowed && style.multiLineAllowed && style.allowMultiLine && style.allowLiteralWhitespace
    ensures !Faithful(str, style, r)
  {
    hide EndsWithTwo, AllScalar;
    assert TraitsOf(str, style.allowBare).lineBreaks;
    assert !TraitsOf(str, style.allowBare).tabs && !TraitsOf(str, style.allowBare).controlChars;
    assert ChooseForm(str, style) == Literal(true);
  }

  lemma {:induction false} MultiLineValuesThatChange(style: Style, r: Text)
    requires style.literalAllowed && style.multiLineAllowed && style.allowMultiLine && style.allowLiteralWhitespace
    ensures var first: Text := [NEWLINE, 'a' as int];
            ParseSegment(Print(first, style) + r) != Some(Parsed(first, r))
    ensures var second: Text := ['a' as int, NEWLINE] + TRIPLE + ['b' as int];
            ParseSegment(Print(second, style) + r) != Some(Parsed(second, r))
  {
    var first: Text := [NEWLINE, 'a' as int];
    var second: Text := ['a' as int, NEWLINE] + TRIPLE + ['b' as int];
    assert second[1] == NEWLINE && TripleAt(second, 2);
    LeadingBreakIsLost(first, style, r);
    TripleEndsEarly(second, style, r, 2);
    hide ParseSegment, Print, Faithful;
    ReadUndoesPrint(first, style, r);
    ReadUndoesPrint(second, style, r);
  }
}
