/** The string writer as the code runs it: one scan that collects the traits, then the output
    loop. */
module TomlStringWriter {
  import opened Sequences
  import opened TomlChars
  import opened TomlStrings

  /** The contribution of one code point to the traits. */
  function AddTrait(t: Traits, c: int): Traits {
    if c == NEWLINE then t.(lineBreaks := true)
    else if c == TAB then t.(tabs := true)
    else if c == APOSTROPHE then t.(singleQuotes := true)
    else t.(controlChars := t.controlChars || IsControlCharacter(c) || IsNonAsciiVerticalWhitespace(c),
            nonBare := t.nonBare || !IsBareKeyCharacter(c))
  }

  lemma {:induction false} TraitsSnoc(s: Text, c: int, allowBare: bool)
    ensures TraitsOf(s + [c], allowBare)
            == AddTrait(TraitsOf(s, allowBare), c).(nonAscii := TraitsOf(s, allowBare).nonAscii || c > 0x7F)
  {
    var a, b := TraitsOf(s, allowBare), TraitsOf(s + [c], allowBare);
    var u := s + [c];
    assert u[|s|] == c;
    assert forall k :: 0 <= k < |s| ==> u[k] == s[k];
    if a.nonBare && allowBare {
      var k :| 0 <= k < |s| && IsPlain(s[k]) && !IsBareKeyCharacter(s[k]);
      assert IsPlain(u[k]) && !IsBareKeyCharacter(u[k]);
    }
    if a.controlChars {
      var k :| 0 <= k < |s| && IsPlain(s[k]) && (IsControlCharacter(s[k]) || IsNonAsciiVerticalWhitespace(s[k]));
      assert IsPlain(u[k]) && (IsControlCharacter(u[k]) || IsNonAsciiVerticalWhitespace(u[k]));
    }
    if a.nonAscii {
      var k :| 0 <= k < |s| && s[k] > 0x7F;
      assert u[k] > 0x7F;
    }
  }

  /** Once every ASCII trait is set, the rest of an ASCII text adds nothing. */
  lemma {:induction false} SaturatedTraits(str: Text, i: nat, allowBare: bool)
    requires i <= |str| && forall k :: 0 <= k < |str| ==> str[k] <= 0x7F
    requires TraitsOf(str[..i], allowBare) == Traits(true, true, true, true, true, false)
    ensures TraitsOf(str, allowBare) == Traits(true, true, true, true, true, false)
    decreases |str| - i
  {
  }

  class Formatter {
    var stream: Text

    constructor ()
      ensures stream == []
    {
      stream := [];
    }

    /** The scan of `print_string`: an ASCII path that stops once all its traits are set, and
        a path for everything else. */
    method ScanTraits(str: Text, allowBare: bool) returns (t: Traits)
      requires AllScalar(str)
      ensures t == TraitsOf(str, allowBare)
    {
      NonAsciiTrait(str, allowBare);
      var ascii := forall k :: 0 <= k < |str| ==> str[k] <= 0x7F;
      if ascii {
        t := ScanAscii(str, allowBare);
      } else {
        t := ScanUnicode(str, allowBare);
      }
    }

    method ScanAscii(str: Text, allowBare: bool) returns (t: Traits)
      requires forall k :: 0 <= k < |str| ==> str[k] <= 0x7F
      ensures t == TraitsOf(str, allowBare)
    {
      t := Traits(false, false, false, false, !allowBare, false);
      assert t == TraitsOf([], allowBare);
      hide TraitsOf;
      for i := 0 to |str|
        invariant t == TraitsOf(str[..i], allowBare) && !t.nonAscii
      {
        TraitsSnoc(str[..i], str[i], allowBare);
        assert str[..i + 1] == str[..i] + [str[i]];
        t := AddTrait(t, str[i]);
        if t == Traits(true, true, true, true, true, false) {
          SaturatedTraits(str, i + 1, allowBare);
          return;
        }
      }
      assert str[..|str|] == str;
    }

    method ScanUnicode(str: Text, allowBare: bool) returns (t: Traits)
      ensures t == TraitsOf(str, allowBare).(nonAscii := true)
    {
      t := Traits(false, false, false, false, !allowBare, true);
      assert t == TraitsOf([], allowBare).(nonAscii := true);
      hide TraitsOf;
      for i := 0 to |str|
        invariant t == TraitsOf(str[..i], allowBare).(nonAscii := true)
      {
        TraitsSnoc(str[..i], str[i], allowBare);
        assert str[..i + 1] == str[..i] + [str[i]];
        NonAsciiAside(TraitsOf(str[..i], allowBare), str[i]);
        t := AddTrait(t, str[i]);
      }
      assert str[..|str|] == str;
    }

    lemma {:induction false} NonAsciiAside(t: Traits, c: int)
      ensures AddTrait(t.(nonAscii := true), c) == AddTrait(t, c).(nonAscii := true)
    {
      hide IsControlCharacter, IsNonAsciiVerticalWhitespace, IsBareKeyCharacter;
    }

    lemma {:induction false} NonAsciiTrait(str: Text, allowBare: bool)
      ensures TraitsOf(str, allowBare).nonAscii <==> !forall k :: 0 <= k < |str| ==> str[k] <= 0x7F
    {
    }

    method PrintString(str: Text, style: Style)
      requires AllScalar(str)
      modifies this
      ensures stream == old(stream) + Print(str, style)
    {
      if str == [] {
        stream := stream + (if style.literalAllowed then [APOSTROPHE, APOSTROPHE] else [QUOTE, QUOTE]);
        return;
      }
      var t := ScanTraits(str, style.allowBare);
      hide TraitsOf, EscapedAll;
      if t.lineBreaks || t.tabs || t.singleQuotes {
        t := t.(nonBare := true);
      }
      if !t.nonBare && (!t.nonAscii || style.unicodeAllowed) {
        stream := stream + str;
        return;
      }
      var realTabsAllowed := style.allowLiteralWhitespace && style.realTabs;
      var multiLine := style.allowLiteralWhitespace && style.allowMultiLine && style.multiLineAllowed && t.lineBreaks;
      var literal := && style.literalAllowed
                     && !t.controlChars
                     && (!t.singleQuotes || multiLine)
                     && (!t.tabs || realTabsAllowed)
                     && (!t.lineBreaks || multiLine)
                     && (!t.nonAscii || style.unicodeAllowed);
      assert ChooseForm(str, style) == if literal then Literal(multiLine) else Basic(multiLine);
      var q := Delimiter(if literal then APOSTROPHE else QUOTE, multiLine);
      ghost var inner := if literal then str else EscapedAll(str, style, multiLine);
      Regroup(stream, q, inner);
      Regroup(stream, q + inner, q);
      stream := stream + q;
      if literal {
        stream := stream + str;
      } else {
        PrintEscaped(str, style, multiLine);
      }
      stream := stream + q;
    }

    method PrintEscaped(str: Text, style: Style, multiLine: bool)
      requires AllScalar(str)
      modifies this
      ensures stream == old(stream) + EscapedAll(str, style, multiLine)
    {
      for i := 0 to |str|
        invariant stream + EscapedAll(str[i..], style, multiLine) == old(stream) + EscapedAll(str, style, multiLine)
      {
        assert str[i..][1..] == str[i + 1..];
        ghost var e, more := Escaped(str[i], style, multiLine), EscapedAll(str[i + 1..], style, multiLine);
        assert stream + (e + more) == stream + e + more;
        stream := stream + Escaped(str[i], style, multiLine);
      }
    }
  }
}
