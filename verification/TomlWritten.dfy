/** What the writer puts out: the shape of a number, and of a string under every setting. */
module TomlWritten {
  import opened TomlChars
  import opened TomlStrings
  import opened TomlIntegers

  // ---------- Numbers ----------

  /** There are characters, and all of them are of this list. */
  predicate DigitsOf(t: Text, digits: string) {
    t != [] && forall k :: 0 <= k < |t| ==> exists i :: 0 <= i < |digits| && t[k] == digits[i] as int
  }

  function Listed(base: Base): string {
    match base
    case Hexadecimal => "0123456789ABCDEF"
    case Octal => "01234567"
    case Binary => "01"
    case Decimal => "0123456789"
  }

  lemma {:induction false} DigitIsListed(base: Base, d: int)
    requires 0 <= d < base.Radix()
    ensures d < |Listed(base)| && DigitCharacter(d) == Listed(base)[d] as int
  {
  }

  lemma {:induction false} DigitsAreListed(base: Base, n: nat)
    ensures DigitsOf(ToDigits(base, n), Listed(base))
    decreases n
  {
    if n < base.Radix() {
      DigitIsListed(base, n);
    } else {
      DigitsAreListed(base, n / base.Radix());
      DigitIsListed(base, n % base.Radix());
    }
  }

  /** A number is written in the base it is stored with, if it is not negative and the formatter allows that base: with
      `0x`, `0o` or `0b` in front, and in capital letters. Any other number is written in decimal. */
  lemma {:induction false} NumberIsWritten(v: int, format: Base, allowed: set<Base>)
    ensures var text, own := FormatInteger(v, format, allowed), v >= 0 && format in allowed;
            if own && format == Hexadecimal then
              |text| > 2 && text[0] == '0' as int && text[1] == 'x' as int && DigitsOf(text[2..], "0123456789ABCDEF")
            else if own && format == Octal then
              |text| > 2 && text[0] == '0' as int && text[1] == 'o' as int && DigitsOf(text[2..], "01234567")
            else if own && format == Binary then
              |text| > 2 && text[0] == '0' as int && text[1] == 'b' as int && DigitsOf(text[2..], "01")
            else if v < 0 then
              |text| > 1 && text[0] == '-' as int && DigitsOf(text[1..], "0123456789")
            else DigitsOf(text, "0123456789")
  {
    var base, n := PrintedBase(v, format, allowed), if v < 0 then -v else v;
    PrintedShape(v, format, allowed);
    DigitsAreListed(base, n);
    assert (Header(base, v < 0) + ToDigits(base, n))[|Header(base, v < 0)|..] == ToDigits(base, n);
    assert Header(base, v < 0) == [] ==> Header(base, v < 0) + ToDigits(base, n) == ToDigits(base, n);
    hide FormatInteger, DigitsOf, ToDigits;
  }

  // ---------- Strings ----------

  /** Line breaks stay line breaks. */
  predicate BreaksAllowed(style: Style) {
    style.allowLiteralWhitespace && style.allowMultiLine && style.multiLineAllowed
  }

  predicate TabsAllowed(style: Style) { style.allowLiteralWhitespace && style.realTabs }

  /** A character that may be written: no control character but for allowed tabs and line breaks, nothing beyond ASCII
      unless that is allowed, and never a line break beyond ASCII. */
  predicate MayStand(c: int, style: Style) {
    && (c == 9 ==> TabsAllowed(style)) && (c == 10 ==> BreaksAllowed(style))
    && (c >= 32 || c == 9 || c == 10) && c != 127 && (c > 127 ==> style.unicodeAllowed)
    && c != 0x85 && c != 0x2028 && c != 0x2029
  }

  predicate AllMayStand(t: Text, style: Style) { forall k :: 0 <= k < |t| ==> MayStand(t[k], style) }

  lemma {:induction false} HexMayStand(base: Base, n: nat, style: Style)
    ensures AllMayStand(ToDigits(base, n), style)
    decreases n
  {
    if n >= base.Radix() { HexMayStand(base, n / base.Radix(), style); }
  }

  lemma {:induction false} EscapeMayStand(c: int, style: Style)
    requires c > 0x7F
    ensures AllMayStand(UnicodeEscape(c), style)
  {
    HexMayStand(Hexadecimal, c, style);
    hide ToDigits;
  }

  lemma {:induction false} EscapedMayStand(c: int, style: Style, multi: bool)
    requires IsScalar(c) && (multi ==> BreaksAllowed(style))
    ensures AllMayStand(Escaped(c, style, multi), style)
  {
    if c > 0x7F { EscapeMayStand(c, style); }
    hide UnicodeEscape;
  }

  lemma {:induction false} AllEscapedMayStand(str: Text, style: Style, multi: bool)
    requires AllScalar(str) && (multi ==> BreaksAllowed(style))
    ensures AllMayStand(EscapedAll(str, style, multi), style)
  {
    hide Escaped, MayStand;
    if str != [] {
      EscapedMayStand(str[0], style, multi);
      AllEscapedMayStand(str[1..], style, multi);
    }
  }

  lemma {:induction false} TextMayStand(str: Text, style: Style)
    requires AllScalar(str) && (ChooseForm(str, style).Bare? || ChooseForm(str, style).Literal?)
    ensures AllMayStand(str, style)
  {
    var t := TraitsOf(str, style.allowBare);
    forall k | 0 <= k < |str| ensures MayStand(str[k], style) {
      assert str[k] in str;
      if str[k] > 0x7F { assert t.nonAscii; }
    }
  }

  lemma {:induction false} Enclosed(a: Text, b: Text, c: Text, style: Style)
    requires AllMayStand(a, style) && AllMayStand(b, style) && AllMayStand(c, style)
    ensures AllMayStand(a + b + c, style)
  {
    hide MayStand;
  }

  /** Whatever the text is, only characters that the settings allow are written. */
  lemma {:induction false} SettingsAreKept(str: Text, style: Style)
    requires AllScalar(str)
    ensures AllMayStand(Print(str, style), style)
  {
    hide EscapedAll, TraitsOf;
    match ChooseForm(str, style)
    case Empty =>
    case Bare => TextMayStand(str, style);
    case Literal(multi) =>
      TextMayStand(str, style);
      Enclosed(Delimiter(APOSTROPHE, multi), str, Delimiter(APOSTROPHE, multi), style);
    case Basic(multi) =>
      AllEscapedMayStand(str, style, multi);
      Enclosed(Delimiter(QUOTE, multi), EscapedAll(str, style, multi), Delimiter(QUOTE, multi), style);
  }

  predicate IsBare(c: int) {
    0 <= c < 128
    && (c as char in "ABCDEFGHIJKLMNOPQRSTUVWXYZ" || c as char in "abcdefghijklmnopqrstuvwxyz0123456789-_")
  }

  lemma {:induction false} BareCharacter(c: int)
    ensures IsBare(c) <==> IsBareKeyCharacter(c)
  {
    if 0 <= c < 128 {
      CapitalListed(c as char);
      OtherListed(c as char);
    }
  }

  lemma {:induction false} CapitalListed(c: char)
    ensures c in "ABCDEFGHIJKLMNOPQRSTUVWXYZ" <==> 'A' <= c <= 'Z'
  {
  }

  lemma {:induction false} OtherListed(c: char)
    ensures c in "abcdefghijklmnopqrstuvwxyz0123456789-_"
            <==> 'a' <= c <= 'z' || '0' <= c <= '9' || c == '-' || c == '_'
  {
  }

  /** A text is written as it is exactly when bare forms are allowed and it consists of letters, digits, hyphens and
      underscores of ASCII. */
  lemma {:induction false} BareForm(str: Text, style: Style)
    requires AllScalar(str) && str != []
    ensures Print(str, style) == str <==> style.allowBare && forall k :: 0 <= k < |str| ==> IsBare(str[k])
  {
    hide IsBare, Escaped;
    forall k | 0 <= k < |str| ensures IsBare(str[k]) <==> IsBareKeyCharacter(str[k]) { BareCharacter(str[k]); }
    if ChooseForm(str, style).Bare? {
      forall k | 0 <= k < |str| ensures IsBareKeyCharacter(str[k]) { assert str[k] in str; }
    } else if ChooseForm(str, style).Basic? {
      EscapedIsLonger(str, style, ChooseForm(str, style).multi);
    }
  }

  lemma {:induction false} EscapedIsLonger(str: Text, style: Style, multi: bool)
    requires AllScalar(str)
    ensures |EscapedAll(str, style, multi)| >= |str|
  {
    if str != [] {
      EscapedIsLonger(str[1..], style, multi);
      hide UnicodeEscape, ControlEscape, EscapedAll;
      if str[0] > 0x7F { UnicodeStarts(str[0]); }
      if 0 <= str[0] <= 0x1F { ControlStarts(str[0]); }
      assert Escaped(str[0], style, multi) != [];
    }
  }

  lemma {:induction false} EscapedStarts(str: Text, style: Style, multi: bool)
    requires AllScalar(str) && str != []
    ensures EscapedAll(str, style, multi) != [] && EscapedAll(str, style, multi)[0] != 34
  {
    hide UnicodeEscape, ControlEscape;
    if str[0] > 0x7F { assert UnicodeEscape(str[0])[0] == BACKSLASH by { UnicodeStarts(str[0]); } }
    if 0 <= str[0] <= 0x1F { assert ControlEscape(str[0])[0] == BACKSLASH by { ControlStarts(str[0]); } }
  }

  lemma {:induction false} UnicodeStarts(c: int)
    requires c > 0x7F
    ensures UnicodeEscape(c) != [] && UnicodeEscape(c)[0] == BACKSLASH
  {
  }

  lemma {:induction false} ControlStarts(c: int)
    requires 0 <= c <= 0x1F
    ensures ControlEscape(c) != [] && ControlEscape(c)[0] == BACKSLASH
  {
  }

  /** The delimiter at the front: an apostrophe only if literals are allowed, a delimiter at all unless bare forms are
      allowed, and three of them exactly when the text has line breaks and they may stay. */
  lemma {:induction false} FormIsAllowed(str: Text, style: Style)
    requires AllScalar(str)
    ensures var p := Print(str, style);
            && p != [] && (p[0] == 39 ==> style.literalAllowed)
            && (p[0] == 39 || p[0] == 34 || (style.allowBare && p == str))
            && ((p[0] == 39 || p[0] == 34) && |p| >= 3 && p[0] == p[1] == p[2] <==> BreaksAllowed(style) && 10 in str)
  {
    match ChooseForm(str, style)
    case Empty =>
    case Bare =>
      assert str[0] in str;
    case Literal(multi) =>
      assert str[0] in str;
    case Basic(multi) =>
      EscapedStarts(str, style, multi);
      hide EscapedAll;
  }
}
