/** The parser as the code runs it, as far as strings, key segments and integers go: a pointer to the current code
    point, the look-back reader it comes from, and a string buffer that the loops fill. Every method is tied to the
    reading functions of `TomlStrings` and `TomlIntegers`. */
module TomlParser {
  import opened Wrappers
  import opened Sequences
  import opened TomlChars
  import opened TomlStrings
  import TomlIntegers
  import opened Utf8BufferedReader

  class Parser {
    const reader: BufferedReader<int>
    /** Where the current code point lies, and the code point itself; nothing at end of file. */
    var at: Option<Pointer>
    var cp: Option<int>
    var stringBuffer: Text

    /** The document, and the position of the current code point in it. */
    ghost const src: Text
    ghost var pos: nat

    ghost predicate Valid()
      reads this, reader.Repr()
    {
      && pos <= |src| && (cp.Some? <==> pos < |src|) && (cp.Some? ==> cp.value == src[pos])
      && at == (if pos < |src| then Some(reader.Where()) else None)
      && reader.StandsAt(src, pos)
    }

    ghost function Rest(): Text
      requires pos <= |src|
      reads this
    {
      src[pos..]
    }

    /** What the pointers to the code points of the rest will read, each after one more `advance`. */
    ghost function SeenRest(): seq<int>
      requires Valid()
      reads this, reader.Repr()
    {
      SeenFrom(reader.source.blocks, reader.source.zero, pos, reader.headIndex)
    }

    constructor (blocks: seq<Text>)
      requires GoodBlocks(blocks)
      ensures Valid() && src == Joined(blocks) && Rest() == src
      ensures reader.source.blocks == blocks && reader.source.zero == 0 && reader.headIndex == 0
      ensures fresh(reader.Repr())
    {
      var r := new BufferedReader<int>(blocks, 0);
      var first := r.ReadNext();
      reader, at, stringBuffer := r, first, [];
      if first.Some? { cp := Some(r.Deref(first.value)); } else { cp := None; }
      this.src, pos := Joined(blocks), 0;
      new;
      assert src[0..] == src;
    }

    /** `advance`. The pointer to the code point left behind may read something else from now on. */
    method Advance()
      requires Valid() && pos < |src|
      modifies this`pos, this`at, this`cp, reader.Repr()
      ensures Valid() && pos == old(pos) + 1
      ensures reader.headIndex == if pos > old(reader.headIndex) then pos else old(reader.headIndex)
      ensures reader.InMemory(old(at.value))
      ensures reader.Deref(old(at.value)) == reader.Later(old(pos), old(reader.headIndex))
    {
      hide BufferedReader.Valid, BufferedReader.Holds, BufferedReader.Later, Joined, AfterRead;
      at := reader.ReadNext();
      if at.Some? { cp := Some(reader.Deref(at.value)); } else { cp := None; }
      pos := pos + 1;
    }

    lemma {:induction false} SeenIsLater()
      requires Valid() && pos < |src|
      ensures SeenRest() != [] && SeenRest()[0] == reader.Later(pos, reader.headIndex)
    {
    }

    /** `go_back`. */
    method GoBack(n: nat)
      requires Valid() && reader.CanStepBack(n)
      modifies this`pos, this`at, this`cp, reader
      ensures Valid() && pos == old(pos) - n && reader.headIndex == old(reader.headIndex)
    {
      hide BufferedReader.Holds, BlockReader.Valid, BlockReader.Delivered, Joined;
      at := reader.StepBack(n);
      if at.Some? { cp := Some(reader.Deref(at.value)); } else { cp := None; }
      pos := pos - n;
    }

    lemma {:induction false} Unfold()
      requires Valid() && pos < |src|
      ensures Rest() != [] && Rest()[0] == src[pos] && Rest()[1..] == src[pos + 1..]
    {
    }

    method ConsumeLineBreak() returns (ok: bool, consumed: bool)
      requires Valid()
      modifies this`pos, this`at, this`cp, reader.Repr()
      ensures Valid()
      ensures match LineBreak(old(Rest()))
              case BadBreak => !ok
              case NoBreak => ok && !consumed && pos == old(pos)
              case Broken(t) => ok && consumed && Rest() == t
    {
      hide BufferedReader.StandsAt;
      if cp.None? { return true, false; }
      if cp.value == 0x0B || cp.value == 0x0C { return false, false; }
      if cp.value == RETURN {
        Advance();
        if cp.None? { return false, false; }
        if cp.value != NEWLINE { return false, false; }
      } else if cp.value != NEWLINE {
        return true, false;
      }
      Advance();
      return true, true;
    }

    method ConsumeLeadingWhitespace() returns (ok: bool)
      requires Valid()
      modifies this`pos, this`at, this`cp, reader.Repr()
      ensures Valid()
      ensures LeadingWhitespace(old(Rest())) == if ok then Some(Rest()) else None
    {
      hide BufferedReader.StandsAt;
      while cp.Some? && IsHorizontalWhitespace(cp.value)
        invariant Valid()
        invariant LeadingWhitespace(Rest()) == LeadingWhitespace(old(Rest()))
        decreases |src| - pos
      {
        Unfold();
        if !IsAsciiHorizontalWhitespace(cp.value) { return false; }
        Advance();
      }
      ok := true;
    }

    /** The digits of `\u` or `\U`, summed by place value. */
    method ParseScalarSequence(digits: nat) returns (ok: bool, value: int)
      requires Valid() && 0 < digits
      modifies this`pos, this`at, this`cp, reader.Repr()
      ensures Valid()
      ensures HexSequence(old(Rest()), digits, 0) == if ok then Some((value, Rest())) else None
    {
      hide BufferedReader.StandsAt;
      var left := digits;
      var placeValue := TomlIntegers.Pow(16, digits - 1);
      ghost var acc := 0;
      value := 0;
      while left > 0
        invariant Valid() && left <= digits
        invariant left > 0 ==> placeValue == TomlIntegers.Pow(16, left - 1)
        invariant value == acc * TomlIntegers.Pow(16, left)
        invariant HexSequence(Rest(), left, acc) == HexSequence(old(Rest()), digits, 0)
      {
        if cp.None? { return false, 0; }
        Unfold();
        if !IsHexadecimalDigit(cp.value) { return false, 0; }
        var d := HexToDec(cp.value);
        Horner(acc, d, placeValue);
        assert TomlIntegers.Pow(16, left) == 16 * placeValue;
        value := value + placeValue * d;
        acc := acc * 16 + d;
        left := left - 1;
        placeValue := placeValue / 16;
        Advance();
      }
      assert value == acc * 1;
      ok := !IsSurrogate(value) && value <= 0x10FFFF;
    }

    /** The character after a backslash, and the digits after `u` and `U`. */
    method ParseEscape() returns (ok: bool, value: int)
      requires Valid() && pos < |src|
      modifies this`pos, this`at, this`cp, reader.Repr()
      ensures Valid()
      ensures EscapedCodePoint(old(Rest())) == if ok then Some((value, Rest())) else None
    {
      hide BufferedReader.StandsAt;
      Unfold();
      var c := cp.value;
      Advance();
      if c == 'b' as int { return true, 0x08; }
      if c == 'f' as int { return true, 0x0C; }
      if c == 'n' as int { return true, NEWLINE; }
      if c == 'r' as int { return true, RETURN; }
      if c == 't' as int { return true, TAB; }
      if c == QUOTE { return true, QUOTE; }
      if c == BACKSLASH { return true, BACKSLASH; }
      if c == 'u' as int || c == 'U' as int {
        ok, value := ParseScalarSequence(if c == 'U' as int then 8 else 4);
        return;
      }
      return false, 0;
    }

    /** Counts the delimiters at the cursor, at most five, and moves past them. */
    method ConsumeDelimiters(q: int) returns (consecutive: nat)
      requires Valid() && pos < |src| && src[pos] == q
      modifies this`pos, this`at, this`cp, reader.Repr()
      ensures Valid()
      ensures consecutive == QuoteRun(old(Rest()), q, 5) && 1 <= consecutive <= 5
      ensures Rest() == old(Rest())[consecutive..]
    {
      hide BufferedReader.StandsAt;
      var lookaheads := 0;
      consecutive := 1;
      ghost var start, s := pos, Rest();
      var more := true;
      while more && lookaheads < 4
        invariant Valid() && pos == start + lookaheads
        invariant lookaheads <= 4 && consecutive == lookaheads + (if more then 1 else 0)
        invariant consecutive <= |s| && forall k :: 0 <= k < consecutive ==> s[k] == q
        invariant !more ==> pos == |src| || src[pos] != q
        invariant more ==> pos < |src|
        decreases 4 - lookaheads
      {
        Advance();
        lookaheads := lookaheads + 1;
        if cp.Some? && cp.value == q {
          consecutive := consecutive + 1;
          assert s[consecutive - 1] == src[pos];
        } else {
          more := false;
        }
      }
      // with five delimiters the cursor stands on the last one
      if consecutive == 5 { Advance(); }
      QuoteRunIs(s, q, 5, consecutive);
    }

    /** `parse_basic_string`, at the opening delimiter (the last one of three when multi-line). */
    method ParseBasicString(multi: bool) returns (ok: bool)
      requires Valid() && pos < |src| && src[pos] == QUOTE
      modifies this, reader.Repr()
      ensures Valid()
      ensures StringBody(QUOTE, old(Rest())[1..], multi) == if ok then Some(Parsed(stringBuffer, Rest())) else None
    {
      hide BufferedReader.StandsAt;
      Unfold();
      Advance();
      if cp.None? { return false; }
      if multi {
        var consumed;
        ok, consumed := ConsumeLineBreak();
        if !ok || cp.None? { return false; }
      }
      ok := BasicLoop(multi);
    }

    /** What the loop of `parse_basic_string` keeps: the buffer holds the part of the value read
        so far, and the rest of the text decides the rest of it. */
    ghost predicate Reading(whole: Option<Parsed>, multi: bool, escaped: bool, skipping: bool)
      reads this, reader.Repr()
    {
      && Valid() && (escaped || !multi ==> !skipping)
      && whole == Prepend(stringBuffer,
         if escaped then AfterBackslash(Rest(), multi) else BasicBody(Rest(), multi, skipping))
    }

    /** The code point after a backslash, or a backslash that ends a line. */
    method EscapedStep(multi: bool, ghost whole: Option<Parsed>) returns (ok: bool, skipping: bool)
      requires Reading(whole, multi, true, false) && pos < |src|
      modifies this, reader.Repr()
      ensures if ok then Reading(whole, multi, false, skipping) else Valid() && whole == None
      ensures ok ==> pos > old(pos)
    {
      hide BufferedReader.StandsAt;
      Unfold();
      skipping := false;
      if multi && IsWhitespace(cp.value) {
        ok := ConsumeLeadingWhitespace();
        if !ok { return; }
        var consumed;
        ok, consumed := ConsumeLineBreak();
        ok := ok && consumed;
        skipping := true;
      } else {
        var value;
        ok, value := ParseEscape();
        if !ok { return; }
        PrependPrepend(stringBuffer, [value], BasicBody(Rest(), multi, false));
        stringBuffer := stringBuffer + [value];
      }
    }

    /** A quote: the end of the string, or quotes inside a multi-line one. */
    method QuoteStep(multi: bool, ghost skipping: bool, ghost whole: Option<Parsed>) returns (finished: bool)
      requires Reading(whole, multi, false, skipping) && pos < |src| && src[pos] == QUOTE
      modifies this, reader.Repr()
      ensures Valid() && pos > old(pos)
      ensures if finished then whole == Some(Parsed(stringBuffer, Rest())) else Reading(whole, multi, false, false)
    {
      hide BufferedReader.StandsAt;
      Unfold();
      if !multi {
        Advance();
        PrependEnd(stringBuffer, [], Rest());
        return true;
      }
      var n := ConsumeDelimiters(QUOTE);
      if n <= 2 {
        PrependPrepend(stringBuffer, Quotes(QUOTE, n), BasicBody(Rest(), multi, false));
        stringBuffer := stringBuffer + Quotes(QUOTE, n);
        finished := false;
      } else {
        PrependEnd(stringBuffer, Quotes(QUOTE, n - 3), Rest());
        stringBuffer := stringBuffer + Quotes(QUOTE, n - 3);
        finished := true;
      }
    }

    /** A line break, kept unless whitespace is being skipped. */
    method LineBreakStep(skipping: bool, ghost whole: Option<Parsed>) returns (ok: bool)
      requires Reading(whole, true, false, skipping) && pos < |src| && IsAsciiVerticalWhitespace(src[pos])
      modifies this, reader.Repr()
      ensures if ok then Reading(whole, true, false, skipping) else Valid() && whole == None
      ensures ok ==> pos > old(pos)
    {
      hide BufferedReader.StandsAt;
      Unfold();
      var consumed;
      ok, consumed := ConsumeLineBreak();
      if !ok { return; }
      ghost var more := BasicBody(Rest(), true, skipping);
      if skipping {
        PrependNothing(more);
      } else {
        PrependPrepend(stringBuffer, [NEWLINE], more);
        stringBuffer := stringBuffer + [NEWLINE];
      }
    }

    method OrdinaryStep(multi: bool, wasSkipping: bool, ghost whole: Option<Parsed>) returns (ok: bool, skipping: bool)
      requires Reading(whole, multi, false, wasSkipping) && pos < |src|
      requires src[pos] != QUOTE && src[pos] != BACKSLASH && !(multi && IsAsciiVerticalWhitespace(src[pos]))
      modifies this, reader.Repr()
      ensures if ok then Reading(whole, multi, false, skipping) else Valid() && whole == None
      ensures ok ==> pos > old(pos)
    {
      hide BufferedReader.StandsAt;
      Unfold();
      var c := cp.value;
      skipping := wasSkipping;
      if IsNonTabControlCharacter(c) { return false, skipping; }
      if IsSurrogate(c) { return false, skipping; }
      Advance();
      if !multi || !skipping || !IsHorizontalWhitespace(c) {
        PrependPrepend(stringBuffer, [c], BasicBody(Rest(), multi, false));
        skipping := false;
        stringBuffer := stringBuffer + [c];
      }
      ok := true;
    }

    /** The loop of `parse_basic_string`. */
    method BasicLoop(multi: bool) returns (ok: bool)
      requires Valid()
      modifies this, reader.Repr()
      ensures Valid()
      ensures BasicBody(old(Rest()), multi, false) == if ok then Some(Parsed(stringBuffer, Rest())) else None
    {
      hide BufferedReader.StandsAt;
      stringBuffer := [];
      var escaped, skippingWhitespace := false, false;
      ghost var whole := BasicBody(Rest(), multi, false);
      PrependNothing(whole);
      while cp.Some?
        invariant Reading(whole, multi, escaped, skippingWhitespace)
        decreases |src| - pos
      {
        if escaped {
          escaped := false;
          ok, skippingWhitespace := EscapedStep(multi, whole);
          if !ok { return false; }
        } else if cp.value == QUOTE {
          var finished := QuoteStep(multi, skippingWhitespace, whole);
          if finished { return true; }
          skippingWhitespace := false;
        } else if cp.value == BACKSLASH {
          Unfold();
          Advance();
          skippingWhitespace := false;
          escaped := true;
        } else if multi && IsAsciiVerticalWhitespace(cp.value) {
          ok := LineBreakStep(skippingWhitespace, whole);
          if !ok { return false; }
        } else {
          ok, skippingWhitespace := OrdinaryStep(multi, skippingWhitespace, whole);
          if !ok { return false; }
        }
      }
      ok := false;
    }

    lemma {:induction false} PrependEnd(a: Text, b: Text, rest: Text)
      ensures Prepend(a, Some(Parsed(b, rest))) == Some(Parsed(a + b, rest))
      ensures a + [] == a
    {
    }

    /** `parse_literal_string`, at the opening delimiter (the last one of three when multi-line). */
    method ParseLiteralString(multi: bool) returns (ok: bool)
      requires Valid() && pos < |src| && src[pos] == APOSTROPHE
      modifies this, reader.Repr()
      ensures Valid()
      ensures StringBody(APOSTROPHE, old(Rest())[1..], multi) == if ok then Some(Parsed(stringBuffer, Rest())) else None
    {
      hide BufferedReader.StandsAt;
      Unfold();
      Advance();
      if cp.None? { return false; }
      if multi {
        var consumed;
        ok, consumed := ConsumeLineBreak();
        if !ok || cp.None? { return false; }
      }
      ok := LiteralLoop(multi);
    }

    ghost predicate ReadingLiteral(whole: Option<Parsed>, multi: bool)
      reads this, reader.Repr()
    {
      Valid() && whole == Prepend(stringBuffer, LiteralBody(Rest(), multi))
    }

    method ApostropheStep(multi: bool, ghost whole: Option<Parsed>) returns (finished: bool)
      requires ReadingLiteral(whole, multi) && pos < |src| && src[pos] == APOSTROPHE
      modifies this, reader.Repr()
      ensures Valid() && pos > old(pos)
      ensures if finished then whole == Some(Parsed(stringBuffer, Rest())) else ReadingLiteral(whole, multi)
    {
      hide BufferedReader.StandsAt;
      Unfold();
      if !multi {
        Advance();
        PrependEnd(stringBuffer, [], Rest());
        return true;
      }
      var n := ConsumeDelimiters(APOSTROPHE);
      if n <= 2 {
        PrependPrepend(stringBuffer, Quotes(APOSTROPHE, n), LiteralBody(Rest(), multi));
        stringBuffer := stringBuffer + Quotes(APOSTROPHE, n);
        finished := false;
      } else {
        PrependEnd(stringBuffer, Quotes(APOSTROPHE, n - 3), Rest());
        stringBuffer := stringBuffer + Quotes(APOSTROPHE, n - 3);
        finished := true;
      }
    }

    method LiteralCharacterStep(multi: bool, ghost whole: Option<Parsed>) returns (ok: bool)
      requires ReadingLiteral(whole, multi) && pos < |src| && src[pos] != APOSTROPHE
      modifies this, reader.Repr()
      ensures if ok then ReadingLiteral(whole, multi) && pos > old(pos) else Valid() && whole == None
    {
      hide BufferedReader.StandsAt;
      Unfold();
      var c := cp.value;
      if multi && IsAsciiVerticalWhitespace(c) {
        var consumed;
        ok, consumed := ConsumeLineBreak();
        if !ok { return; }
        PrependPrepend(stringBuffer, [NEWLINE], LiteralBody(Rest(), multi));
        stringBuffer := stringBuffer + [NEWLINE];
      } else {
        if IsNonTabControlCharacter(c) { return false; }
        if IsSurrogate(c) { return false; }
        Advance();
        PrependPrepend(stringBuffer, [c], LiteralBody(Rest(), multi));
        stringBuffer := stringBuffer + [c];
        ok := true;
      }
    }

    /** The loop of `parse_literal_string`. */
    method LiteralLoop(multi: bool) returns (ok: bool)
      requires Valid()
      modifies this, reader.Repr()
      ensures Valid()
      ensures LiteralBody(old(Rest()), multi) == if ok then Some(Parsed(stringBuffer, Rest())) else None
    {
      hide BufferedReader.StandsAt;
      stringBuffer := [];
      ghost var whole := LiteralBody(Rest(), multi);
      PrependNothing(whole);
      while cp.Some?
        invariant ReadingLiteral(whole, multi)
        decreases |src| - pos
      {
        if cp.value == APOSTROPHE {
          var finished := ApostropheStep(multi, whole);
          if finished { return true; }
        } else {
          ok := LiteralCharacterStep(multi, whole);
          if !ok { return false; }
        }
      }
      ok := false;
    }

    /** The head is never more than a ring ahead, so the ring still reaches back after two more code points. */
    lemma {:induction false} HeadIsNear()
      requires Valid()
      ensures 0 <= reader.headIndex - pos <= HISTORY_BUFFER_SIZE
    {
    }

    lemma {:induction false} MayGoBack(n: nat)
      requires Valid() && 0 < n <= pos && reader.headIndex - (pos - n) <= HISTORY_BUFFER_SIZE
      ensures reader.Valid() && reader.CanStepBack(n)
    {
      assert reader.StandsAt(src, pos);
    }

    /** `parse_string`: looks at three characters and, unless they are all delimiters, goes
        back to the first. */
    method ParseString() returns (ok: bool, value: Text, wasMultiLine: bool)
      requires Valid() && pos < |src| && (src[pos] == QUOTE || src[pos] == APOSTROPHE)
      modifies this, reader.Repr()
      ensures Valid()
      ensures TomlStrings.ParseString(old(Rest())) == if ok then Some(Parsed(value, Rest())) else None
    {
      hide BufferedReader.StandsAt, StringBody, TomlStrings.ParseString;
      ghost var s, from := Rest(), pos;
      var first := cp.value;
      TheForm(s, first);
      var stops;
      ok, stops, wasMultiLine := PickForm();
      assert Rest() == s[pos - from..];
      if stops { return ok, [], false; }
      if first == APOSTROPHE {
        ok := ParseLiteralString(wasMultiLine);
      } else {
        ok := ParseBasicString(wasMultiLine);
      }
      value := stringBuffer;
    }

    /** What the first three characters say of a string. */
    lemma {:induction false} TheForm(s: Text, first: int)
      requires s != [] && s[0] == first && (first == QUOTE || first == APOSTROPHE)
      ensures |s| == 1 ==> TomlStrings.ParseString(s) == None
      ensures |s| == 2 ==> TomlStrings.ParseString(s) == if s[1] == first then Some(Parsed([], s[2..])) else None
      ensures |s| > 2 ==> var multi := s[1] == first && s[2] == first;
                          TomlStrings.ParseString(s) == StringBody(first, (if multi then s[2..] else s)[1..], multi)
    {
      if |s| == 2 { assert s[2..] == []; }
      if |s| > 2 { assert s[2..][1..] == s[3..]; }
      hide StringBody;
    }

    /** Looks at three characters; they settle the string if it ends with them, or pick its form. */
    method PickForm() returns (ok: bool, stops: bool, multi: bool)
      requires Valid() && pos < |src|
      modifies this`pos, this`at, this`cp, reader.Repr()
      ensures Valid()
      ensures stops <==> old(pos) + 2 >= |src|
      ensures stops ==> pos == |src| && (ok <==> old(pos) + 2 == |src| && src[old(pos)] == src[old(pos) + 1])
      ensures !stops ==> && (multi <==> src[old(pos)] == src[old(pos) + 1] && src[old(pos)] == src[old(pos) + 2])
                         && pos == old(pos) + (if multi then 2 else 0)
    {
      HeadIsNear();
      hide BufferedReader.StandsAt, BufferedReader.Later, BufferedReader.Deref, BufferedReader.InMemory;
      var first := cp.value;
      Advance();
      if cp.None? { return false, true, false; }
      var second := cp.value;
      Advance();
      if cp.None? { return second == first, true, false; }
      multi := first == second && first == cp.value;
      if !multi { BackTwo(); }
      ok, stops := true, false;
    }

    method BackTwo()
      requires Valid() && 2 <= pos && reader.headIndex - (pos - 2) <= HISTORY_BUFFER_SIZE
      modifies this`pos, this`at, this`cp, reader
      ensures Valid() && pos == old(pos) - 2
    {
      hide BufferedReader.StandsAt;
      MayGoBack(2);
      GoBack(2);
    }

    /** One more character of a bare segment. */
    method BareStep(ghost whole: Parsed)
      requires Valid() && cp.Some? && IsBareKeyCharacter(cp.value) && BareSoFar(whole, stringBuffer, Rest())
      modifies this, reader.Repr()
      ensures Valid() && pos == old(pos) + 1 && BareSoFar(whole, stringBuffer, Rest())
    {
      hide BufferedReader.StandsAt, BareSoFar, IsBareKeyCharacter;
      Unfold();
      BareMore(whole, stringBuffer, Rest());
      stringBuffer := stringBuffer + [cp.value];
      Advance();
    }

    method ParseBareKeySegment() returns (value: Text)
      requires Valid() && pos < |src| && IsBareKeyCharacter(src[pos])
      modifies this, reader.Repr()
      ensures Valid()
      ensures BareSegment(old(Rest())) == Parsed(value, Rest())
    {
      hide BufferedReader.StandsAt, BareSoFar, IsBareKeyCharacter, BareSegment;
      stringBuffer := [];
      ghost var whole := BareSegment(Rest());
      BareStarts(Rest());
      while cp.Some? && IsBareKeyCharacter(cp.value)
        invariant Valid() && BareSoFar(whole, stringBuffer, Rest())
        decreases |src| - pos
      {
        BareStep(whole);
      }
      BareEnds(whole, stringBuffer, Rest());
      value := stringBuffer;
    }

    ghost predicate BareSoFar(whole: Parsed, buffer: Text, rest: Text) {
      whole == Parsed(buffer + BareSegment(rest).value, BareSegment(rest).rest)
    }

    lemma {:induction false} BareStarts(rest: Text)
      ensures BareSoFar(BareSegment(rest), [], rest)
    {
      assert [] + BareSegment(rest).value == BareSegment(rest).value;
    }

    lemma {:induction false} BareMore(whole: Parsed, buffer: Text, rest: Text)
      requires BareSoFar(whole, buffer, rest) && rest != [] && IsBareKeyCharacter(rest[0])
      ensures BareSoFar(whole, buffer + [rest[0]], rest[1..])
    {
      Regroup(buffer, [rest[0]], BareSegment(rest[1..]).value);
    }

    lemma {:induction false} BareEnds(whole: Parsed, buffer: Text, rest: Text)
      requires BareSoFar(whole, buffer, rest) && (rest == [] || !IsBareKeyCharacter(rest[0]))
      ensures whole == Parsed(buffer, rest)
    {
      assert buffer + [] == buffer;
    }

    // ---------- Integers ----------

    /** The walk has come `i` characters into a text, of which the last one is always seen. */
    ghost predicate Inside(t: Text, seen: seq<int>, from: nat, i: nat)
      reads this, reader.Repr()
    {
      && Valid() && i <= |t| == |seen| && pos == from + i && |src| == from + |t|
      && Rest() == t[i..] && SeenRest() == seen[i..]
      && (t != [] ==> seen[|t| - 1] == t[|t| - 1])
    }

    /** One character further, and what the pointer to the character left behind reads. */
    method Next(ghost t: Text, ghost seen: seq<int>, ghost from: nat, ghost i: nat) returns (prev: Pointer)
      requires Inside(t, seen, from, i) && i < |t|
      modifies this`pos, this`at, this`cp, reader.Repr()
      ensures Inside(t, seen, from, i + 1) && (cp.Some? <==> i + 1 < |t|) && (cp.Some? ==> cp.value == t[i + 1])
      ensures reader.InMemory(prev) && reader.Deref(prev) == seen[i]
    {
      hide *;
      ghost var h := reader.headIndex;
      BeforeNext(t, seen, from, i);
      prev := at.value;
      Advance();
      AfterNext(t, seen, from, i, h);
    }

    lemma {:induction false} BeforeNext(t: Text, seen: seq<int>, from: nat, i: nat)
      requires Inside(t, seen, from, i) && i < |t|
      ensures Valid() && pos < |src| && pos == from + i && at.Some? && |seen| == |t| && |src| == from + |t|
      ensures pos < |Joined(reader.source.blocks)| && seen[i] == reader.Later(pos, reader.headIndex)
      ensures seen[i..] == SeenFrom(reader.source.blocks, reader.source.zero, pos, reader.headIndex)
      ensures src[pos..] == t[i..] && (t != [] ==> seen[|t| - 1] == t[|t| - 1])
    {
      SeenIsLater();
      RestIsJoined();
      assert seen[i..][0] == seen[i];
      hide BufferedReader.StandsAt, BufferedReader.Later, SeenFrom;
    }

    lemma {:induction false} AfterNext(t: Text, seen: seq<int>, from: nat, i: nat, h: int)
      requires Valid() && i < |t| == |seen| && pos == from + i + 1 && |src| == from + |t| && src[from + i..] == t[i..]
      requires t != [] ==> seen[|t| - 1] == t[|t| - 1]
      requires from + i < |Joined(reader.source.blocks)|
      requires seen[i..] == SeenFrom(reader.source.blocks, reader.source.zero, from + i, h)
      requires reader.headIndex == if pos > h then pos else h
      ensures Inside(t, seen, from, i + 1) && (cp.Some? <==> i + 1 < |t|) && (cp.Some? ==> cp.value == t[i + 1])
    {
      hide BufferedReader.StandsAt, SeenFrom;
      SeenTail(reader.source.blocks, reader.source.zero, from + i, h, reader.headIndex);
      TailAfter(t, i);
      TailAfter(seen, i);
      TailAfter(src, from + i);
    }

    static lemma {:induction false} TailAfter<T>(a: seq<T>, i: nat)
      requires i < |a|
      ensures a[i..][1..] == a[i + 1..]
    {
    }

    /** What the loop of `ConsumeDigits` keeps: `i` characters of the token are taken, their digits are in the buffer,
        and `prev` points to the last one. */
    ghost predicate Collects(base: TomlIntegers.Base, t: Text, seen: seq<int>, from: nat, i: nat,
                             digits: array<int>, length: nat, prev: Option<Pointer>)
      reads this, reader.Repr(), digits
    {
      && Inside(t, seen, from, i) && length <= digits.Length == MAX_HISTORY_LENGTH
      && TomlIntegers.Collecting(base, t, seen, i, digits[..length])
      && (prev == None <==> i == 0)
      && (prev.Some? ==> reader.InMemory(prev.value) && reader.Deref(prev.value) == seen[i - 1])
    }

    /** One character of the token: it goes into the buffer if it is a digit, or the token is refused. */
    method TakeCharacter(base: TomlIntegers.Base, digits: array<int>, length: nat, prev: Option<Pointer>,
                         ghost t: Text, ghost seen: seq<int>, ghost from: nat, ghost i: nat)
      returns (ok: bool, more: nat)
      requires Collects(base, t, seen, from, i, digits, length, prev)
      requires cp.Some? && !IsValueTerminator(cp.value) && digits !in reader.Repr()
      modifies digits
      ensures Inside(t, seen, from, i) && i < |t|
      ensures ok ==> more <= digits.Length && TomlIntegers.Collecting(base, t, seen, i + 1, digits[..more])
      ensures !ok ==> !TomlIntegers.Takes(base, t[..TomlIntegers.TokenEnd(t, 0)], seen)
    {
      var c := cp.value;
      ghost var kept := digits[..length];
      assert i < |t| && c == t[i];
      hide Inside, TomlIntegers.Collecting, TomlIntegers.Takes, TomlIntegers.TokenEnd, IsValueTerminator,
        TomlIntegers.Base.IsDigit, Valid, BufferedReader.StandsAt;
      TomlIntegers.CollectingStep(base, t, seen, i, kept);
      more := length;
      if c == TomlIntegers.UNDERSCORE {
        ok := prev.Some? && base.IsDigit(reader.Deref(prev.value));
        TomlIntegers.DigitIsNotUnderscore(base);
      } else if prev.Some? && reader.Deref(prev.value) == TomlIntegers.UNDERSCORE && !base.IsDigit(c) {
        ok := false;
      } else if !base.IsDigit(c) {
        ok := false;
      } else if length == digits.Length {
        ok := false;
      } else {
        TomlIntegers.AppendDigit(digits, length, c);
        ok, more := true, length + 1;
      }
    }

    /** One turn of the loop: a character is taken and left behind. */
    method OneCharacter(base: TomlIntegers.Base, digits: array<int>, length: nat, prev: Option<Pointer>,
                        ghost t: Text, ghost seen: seq<int>, ghost from: nat, ghost i: nat)
      returns (ok: bool, more: nat, left: Option<Pointer>)
      requires Collects(base, t, seen, from, i, digits, length, prev)
      requires cp.Some? && !IsValueTerminator(cp.value) && digits !in reader.Repr()
      modifies this`pos, this`at, this`cp, reader.Repr(), digits
      ensures Valid() && i < |t|
      ensures ok ==> Collects(base, t, seen, from, i + 1, digits, more, left)
      ensures !ok ==> !TomlIntegers.Takes(base, t[..TomlIntegers.TokenEnd(t, 0)], seen)
    {
      hide TomlIntegers.Collecting, TomlIntegers.Takes, TomlIntegers.TokenEnd, IsValueTerminator,
        TomlIntegers.Base.IsDigit, BufferedReader.StandsAt, BufferedReader.Deref, BufferedReader.InMemory, Valid;
      var c := cp.value;
      InsideIsValid(t, seen, from, i);
      ok, more := TakeCharacter(base, digits, length, prev, t, seen, from, i);
      left := prev;
      if !ok { return; }
      var p := Next(t, seen, from, i);
      left := Some(p);
      InsideIsValid(t, seen, from, i + 1);
      if c == TomlIntegers.UNDERSCORE && cp.None? {
        LastUnderscore(base, t, seen, from, i, digits[..more]);
        ok := false;
      }
    }

    lemma {:induction false} InsideIsValid(t: Text, seen: seq<int>, from: nat, i: nat)
      requires Inside(t, seen, from, i)
      ensures Valid() && i <= |t| == |seen| && (cp.Some? <==> i < |t|) && (cp.Some? ==> cp.value == t[i])
    {
      hide BufferedReader.StandsAt;
    }

    /** An underscore at the end of the document is always seen. */
    lemma {:induction false} LastUnderscore(
        base: TomlIntegers.Base, t: Text, seen: seq<int>, from: nat, i: nat, ds: Text)
      requires Inside(t, seen, from, i + 1) && i + 1 == |t| && t[i] == TomlIntegers.UNDERSCORE
      requires TomlIntegers.Collecting(base, t, seen, i + 1, ds)
      ensures !TomlIntegers.Takes(base, t[..TomlIntegers.TokenEnd(t, 0)], seen)
    {
      TomlIntegers.CollectingDone(base, t, seen, i + 1, ds);
    }

    /** Reads the digits of the token at the cursor into the fixed buffer. `prev` is a pointer, read after the cursor
        has left it. */
    method ConsumeDigits(base: TomlIntegers.Base) returns (ok: bool, ds: Text)
      requires Valid() && cp.Some? && base.IsDigit(cp.value)
      modifies this`pos, this`at, this`cp, reader.Repr()
      ensures Valid()
      ensures var t, s := old(Rest()), old(SeenRest());
              var stop := TomlIntegers.TokenEnd(t, 0);
              && (ok <==> TomlIntegers.Takes(base, t[..stop], s))
              && (ok ==> ds == TomlIntegers.Stripped(t[..stop]) && pos == old(pos) + stop)
    {
      var digits := new int[MAX_HISTORY_LENGTH];
      ghost var t, s, from := Rest(), SeenRest(), pos;
      CollectsStarts(base, digits);
      var length, prev;
      hide *;
      length, ok, prev := CollectDigits(base, digits, t, s, from);
      if !ok || reader.Deref(prev) == TomlIntegers.UNDERSCORE { return false, []; }
      return true, digits[..length];
    }

    /** The loop of `ConsumeDigits`. */
    method CollectDigits(base: TomlIntegers.Base, digits: array<int>, ghost t: Text, ghost s: seq<int>, ghost from: nat)
      returns (length: nat, ok: bool, last: Pointer)
      requires Collects(base, t, s, from, 0, digits, 0, None)
      requires cp.Some? && !IsValueTerminator(cp.value) && digits !in reader.Repr()
      modifies this`pos, this`at, this`cp, reader.Repr(), digits
      ensures Valid()
      ensures var stop := TomlIntegers.TokenEnd(t, 0);
              if ok then
                && reader.InMemory(last) && pos == from + stop && length <= digits.Length
                && digits[..length] == TomlIntegers.Stripped(t[..stop])
                && (TomlIntegers.Takes(base, t[..stop], s) <==> reader.Deref(last) != TomlIntegers.UNDERSCORE)
              else !TomlIntegers.Takes(base, t[..stop], s)
    {
      hide *;
      ghost var i := 0;
      length := 0;
      var prev: Option<Pointer> := None;
      last := InBlock(0);
      while cp.Some? && !IsValueTerminator(cp.value)
        invariant Collects(base, t, s, from, i, digits, length, prev) && i <= |t|
        invariant i == 0 ==> cp.Some? && !IsValueTerminator(cp.value)
        decreases |t| - i
      {
        ok, length, prev := OneCharacter(base, digits, length, prev, t, s, from, i);
        if !ok { return; }
        i := i + 1;
      }
      CollectsEnds(base, t, s, from, i, digits, length, prev);
      ok, last := true, prev.value;
    }

    lemma {:induction false} CollectsStarts(base: TomlIntegers.Base, digits: array<int>)
      requires Valid() && cp.Some? && base.IsDigit(cp.value) && digits.Length == MAX_HISTORY_LENGTH
      ensures Collects(base, Rest(), SeenRest(), pos, 0, digits, 0, None)
      ensures !IsValueTerminator(cp.value)
    {
      TomlIntegers.CollectingStarts(base, Rest(), SeenRest());
      TomlIntegers.DigitRange(base, cp.value);
      assert Rest()[0..] == Rest() && SeenRest()[0..] == SeenRest() && digits[..0] == [];
      LastIsSeen();
      hide TomlIntegers.Collecting, BufferedReader.StandsAt;
    }

    lemma {:induction false} CollectsEnds(base: TomlIntegers.Base, t: Text, seen: seq<int>, from: nat, i: nat,
                                          digits: array<int>, length: nat, prev: Option<Pointer>)
      requires Collects(base, t, seen, from, i, digits, length, prev) && i > 0
      requires cp.None? || IsValueTerminator(cp.value)
      ensures Valid() && i == TomlIntegers.TokenEnd(t, 0) && pos == from + i && length <= digits.Length
      ensures digits[..length] == TomlIntegers.Stripped(t[..i])
      ensures prev.Some? && reader.InMemory(prev.value)
      ensures TomlIntegers.Takes(base, t[..i], seen) <==> reader.Deref(prev.value) != TomlIntegers.UNDERSCORE
    {
      TomlIntegers.CollectingDone(base, t, seen, i, digits[..length]);
      hide TomlIntegers.Takes, TomlIntegers.Collecting, TomlIntegers.TokenEnd, TomlIntegers.Stripped,
        BufferedReader.StandsAt;
    }

    /** The last code point of the document has no block behind it. */
    lemma {:induction false} LastIsSeen()
      requires Valid() && pos < |src|
      ensures |SeenRest()| == |Rest()| && SeenRest()[|Rest()| - 1] == Rest()[|Rest()| - 1]
    {
      LastEndsNoBlock(reader.source.blocks);
      AfterReadInside(reader.source.blocks, reader.source.zero, |src| - 1);
    }

    /** The sign, or the zero and the letter of another base. */
    method SkipHeader(base: TomlIntegers.Base, ghost t: Text, ghost s: seq<int>, ghost from: nat)
      returns (ok: bool, sign: int)
      requires t != [] && Inside(t, s, from, 0)
      modifies this`pos, this`at, this`cp, reader.Repr()
      ensures Valid() && (ok <==> TomlIntegers.BodyStart(base, t).Some?)
      ensures ok ==> Inside(t, s, from, TomlIntegers.BodyStart(base, t).value) && sign == TomlIntegers.SignOf(base, t)
    {
      hide Inside, Valid;
      if base == TomlIntegers.Decimal {
        ok, sign := SkipSign(t, s, from);
      } else {
        ok := SkipPrefix(base, t, s, from);
        sign := 1;
      }
    }

    method SkipSign(ghost t: Text, ghost s: seq<int>, ghost from: nat) returns (ok: bool, sign: int)
      requires t != [] && Inside(t, s, from, 0)
      modifies this`pos, this`at, this`cp, reader.Repr()
      ensures Valid() && (ok <==> TomlIntegers.BodyStart(TomlIntegers.Decimal, t).Some?)
      ensures ok ==>
                && Inside(t, s, from, TomlIntegers.BodyStart(TomlIntegers.Decimal, t).value)
                && sign == TomlIntegers.SignOf(TomlIntegers.Decimal, t)
    {
      InsideIsValid(t, s, from, 0);
      hide Inside, Valid;
      sign := if cp.value == '-' as int then -1 else 1;
      if cp.value == '+' as int || cp.value == '-' as int {
        var _ := Next(t, s, from, 0);
        InsideIsValid(t, s, from, 1);
      }
      ok := cp.Some?;
    }

    method SkipPrefix(base: TomlIntegers.Base, ghost t: Text, ghost s: seq<int>, ghost from: nat) returns (ok: bool)
      requires base != TomlIntegers.Decimal && t != [] && Inside(t, s, from, 0)
      modifies this`pos, this`at, this`cp, reader.Repr()
      ensures Valid() && (ok <==> TomlIntegers.BodyStart(base, t).Some?)
      ensures ok ==> Inside(t, s, from, TomlIntegers.BodyStart(base, t).value)
    {
      hide *;
      PrefixAt(base, t);
      InsideIsValid(t, s, from, 0);
      if cp.value != TomlIntegers.ZERO { return false; }
      var _ := Next(t, s, from, 0);
      InsideIsValid(t, s, from, 1);
      if cp.None? || cp.value != base.PrefixCharacter() { return false; }
      var _ := Next(t, s, from, 1);
      InsideIsValid(t, s, from, 2);
      ok := cp.Some?;
    }

    lemma {:induction false} PrefixAt(base: TomlIntegers.Base, t: Text)
      requires base != TomlIntegers.Decimal && t != []
      ensures TomlIntegers.BodyStart(base, t).Some?
              <==> |t| > 2 && t[0] == TomlIntegers.ZERO && t[1] == base.PrefixCharacter()
      ensures TomlIntegers.BodyStart(base, t).Some? ==> TomlIntegers.BodyStart(base, t).value == 2
    {
    }

    /** `parse_integer`. */
    method ParseInteger(base: TomlIntegers.Base) returns (r: Result<int, TomlIntegers.IntError>)
      requires Valid() && cp.Some?
      modifies this`pos, this`at, this`cp, reader.Repr()
      ensures Valid()
      ensures TomlIntegers.Says(TomlIntegers.Reading(base, old(Rest()), old(SeenRest())), r, pos - old(pos))
    {
      ghost var t, s, from := Rest(), SeenRest(), pos;
      InsideStarts();
      hide *;
      var ok, sign := SkipHeader(base, t, s, from);
      if !ok {
        NoHeader(base, t, s);
        r := Err(TomlIntegers.Malformed);
      } else {
        r := ParseToken(base, sign, t, s, from);
        return;
      }
      TomlIntegers.ErrorAnywhere(TomlIntegers.Reading(base, t, s), TomlIntegers.Malformed, pos - from);
    }

    /** `parse_integer`, from the first digit on. */
    method ParseToken(base: TomlIntegers.Base, sign: int, ghost t: Text, ghost s: seq<int>, ghost from: nat)
      returns (r: Result<int, TomlIntegers.IntError>)
      requires t != [] && |s| == |t| && TomlIntegers.BodyStart(base, t).Some? && sign == TomlIntegers.SignOf(base, t)
      requires Inside(t, s, from, TomlIntegers.BodyStart(base, t).value)
      modifies this`pos, this`at, this`cp, reader.Repr()
      ensures Valid() && TomlIntegers.Says(TomlIntegers.Reading(base, t, s), r, pos - from)
    {
      hide Valid, Inside, Rest, SeenRest, TomlIntegers.Reading, TomlIntegers.Says, TomlIntegers.Takes,
        TomlIntegers.Stripped, TomlIntegers.TokenEnd, TomlIntegers.DigitsValue, TomlIntegers.BodyStart,
        TomlIntegers.SignOf, TomlIntegers.AllDigits, TomlIntegers.Base.IsDigit;
      ghost var start := TomlIntegers.BodyStart(base, t).value;
      InsideIsRest(base, t, s, from);
      var ok, digits := false, [];
      if base.IsDigit(cp.value) {
        TomlIntegers.ReadingFrom(base, t, s, start);
        ok, digits := ConsumeDigits(base);
      } else {
        TomlIntegers.NoDigitNoReading(base, t, s, start);
      }
      if ok {
        TomlIntegers.TokenDigits(base, t[start..][..TomlIntegers.TokenEnd(t[start..], 0)], s[start..]);
        SignIsSign(base, t);
        r := TomlIntegers.DigitsToInt(base, sign, digits);
      } else {
        TomlIntegers.ErrorAnywhere(TomlIntegers.Reading(base, t, s), TomlIntegers.Malformed, pos - from);
        r := Err(TomlIntegers.Malformed);
      }
    }

    lemma {:induction false} NoHeader(base: TomlIntegers.Base, t: Text, s: seq<int>)
      requires t != [] && |s| == |t| && TomlIntegers.BodyStart(base, t).None?
      ensures TomlIntegers.Says(TomlIntegers.Reading(base, t, s), Err(TomlIntegers.Malformed), 0)
    {
    }

    lemma {:induction false} SignIsSign(base: TomlIntegers.Base, t: Text)
      requires t != []
      ensures TomlIntegers.SignOf(base, t) == 1 || (TomlIntegers.SignOf(base, t) == -1 && base == TomlIntegers.Decimal)
    {
    }

    lemma {:induction false} InsideStarts()
      requires Valid() && pos < |src|
      ensures Rest() != [] && |SeenRest()| == |Rest()| && Inside(Rest(), SeenRest(), pos, 0)
    {
      LastIsSeen();
      assert Rest()[0..] == Rest() && SeenRest()[0..] == SeenRest();
      hide BufferedReader.StandsAt;
    }

    lemma {:induction false} InsideIsRest(base: TomlIntegers.Base, t: Text, seen: seq<int>, from: nat)
      requires t != [] && TomlIntegers.BodyStart(base, t).Some?
      requires Inside(t, seen, from, TomlIntegers.BodyStart(base, t).value)
      ensures var i := TomlIntegers.BodyStart(base, t).value;
              && Valid() && i < |t| == |seen| && cp.Some? && cp.value == t[i] && pos == from + i
              && Rest() == t[i..] && SeenRest() == seen[i..]
    {
      hide BufferedReader.StandsAt;
    }

    /** `parse_value`, for a value that is an integer of this base: it looks ahead, goes back, and parses. */
    method ParseIntegerValue(base: TomlIntegers.Base) returns (r: Result<int, TomlIntegers.IntError>)
      requires Valid() && cp.Some? && !IsValueTerminator(cp.value) && reader.source.zero == 0
      modifies this`pos, this`at, this`cp, reader.Repr()
      ensures Valid()
      ensures TomlIntegers.Says(
                TomlIntegers.ValueAt(base, reader.source.blocks, old(pos), old(reader.headIndex)), r, pos - old(pos))
    {
      ghost var t, h := Rest(), reader.headIndex;
      var n, count, eof := ScanAhead();
      LooksLong(base, t, n, eof);
      ReadsAt(base, t, n, h);
      LooksLone(base, t, n, count);
      hide *;
      if base == TomlIntegers.Decimal && count == 1 && base.IsDigit(cp.value) {
        r := Ok(HexToDec(cp.value));
        Advance();
        return;
      }
      if base == TomlIntegers.Decimal && !eof && n > MAX_HISTORY_LENGTH - 2 {
        return Err(TomlIntegers.TooLong);
      }
      r := ParseInteger(base);
    }

    /** After the look-ahead, what the pointers will read is known from the blocks alone. */
    lemma {:induction false} ReadsAt(base: TomlIntegers.Base, t: Text, n: nat, h: int)
      requires Valid() && cp.Some? && t == Rest() && n == TomlIntegers.LookAhead(t) && reader.source.zero == 0
      requires reader.headIndex == if pos + n > h then pos + n else h
      ensures pos < |Joined(reader.source.blocks)| && t != [] && |SeenRest()| == |t|
      ensures TomlIntegers.ValueAt(base, reader.source.blocks, pos, h)
              == if TomlIntegers.IsOneDigit(base, t) then Ok((HexToDec(t[0]), 1))
                 else if TomlIntegers.IsTooLong(base, t) then Err(TomlIntegers.TooLong)
                 else TomlIntegers.Reading(base, Rest(), SeenRest())
    {
      hide TomlIntegers.LookAhead, TomlIntegers.Reading, Joined, SeenFrom, Valid, TomlIntegers.IsOneDigit,
        TomlIntegers.IsTooLong;
      RestIsJoined();
    }

    lemma {:induction false} LooksLone(base: TomlIntegers.Base, t: Text, n: nat, count: nat)
      requires Valid() && cp.Some? && t == Rest()
      requires n == TomlIntegers.LookAhead(t) && count == |TomlIntegers.Stripped(t[..n])|
      ensures t != [] && cp.value == t[0] && pos < |src|
      ensures TomlIntegers.IsOneDigit(base, t) <==> base == TomlIntegers.Decimal && count == 1 && base.IsDigit(cp.value)
    {
      hide BufferedReader.StandsAt;
    }

    lemma {:induction false} LooksLong(base: TomlIntegers.Base, t: Text, n: nat, eof: bool)
      requires n == TomlIntegers.LookAhead(t) && (eof <==> n == |t|)
      ensures TomlIntegers.IsTooLong(base, t) <==> base == TomlIntegers.Decimal && !eof && n > MAX_HISTORY_LENGTH - 2
    {
    }

    lemma {:induction false} RestIsJoined()
      requires Valid() && cp.Some?
      ensures pos < |src| && src == Joined(reader.source.blocks) && Rest() == Joined(reader.source.blocks)[pos..]
    {
    }

    /** Looks ahead to the end of the value, but not further than the ring reaches, counts what is no underscore, and
        goes back. */
    method ScanAhead() returns (n: nat, count: nat, eof: bool)
      requires Valid() && cp.Some? && !IsValueTerminator(cp.value)
      modifies this`pos, this`at, this`cp, reader.Repr()
      ensures Valid() && pos == old(pos) && cp.Some?
      ensures n == TomlIntegers.LookAhead(old(Rest())) && (eof <==> n == |old(Rest())|)
      ensures count == |TomlIntegers.Stripped(old(Rest())[..n])|
      ensures reader.headIndex == if old(pos) + n > old(reader.headIndex) then old(pos) + n else old(reader.headIndex)
    {
      ghost var t, from, h := Rest(), pos, reader.headIndex;
      ScanStarts();
      hide *;
      n, count := ScanValue(t, from, h);
      eof := cp.None?;
      ScanStops(t, from, h, n, count);
      GoBack(n);
      ScanIsBack(t, from);
    }

    /** The scan itself. */
    method ScanValue(ghost t: Text, ghost from: nat, ghost h: int) returns (n: nat, count: nat)
      requires Scanning(t, from, h, 0) && Counted(t, 0, 0) && cp.Some? && !IsValueTerminator(cp.value)
      modifies this`pos, this`at, this`cp, reader.Repr()
      ensures 1 <= n <= HISTORY_BUFFER_SIZE && Scanning(t, from, h, n) && Counted(t, n, count)
      ensures n == HISTORY_BUFFER_SIZE || cp.None? || IsValueTerminator(cp.value)
    {
      hide Scanning, Counted, IsValueTerminator;
      count := ScanOn(t, from, h, 0, 0);
      n := 1;
      while n < MAX_HISTORY_LENGTH - 1 && cp.Some? && !IsValueTerminator(cp.value)
        invariant 1 <= n <= MAX_HISTORY_LENGTH - 1 && Scanning(t, from, h, n) && Counted(t, n, count)
        decreases MAX_HISTORY_LENGTH - n
      {
        count := ScanOn(t, from, h, n, count);
        n := n + 1;
      }
    }

    /** So many of the first `n` characters are no underscores. */
    ghost predicate Counted(t: Text, n: nat, count: nat) {
      n <= |t| && count == |TomlIntegers.Stripped(t[..n])|
    }

    /** The scan has come `n` characters into the value. */
    ghost predicate Scanning(t: Text, from: nat, h: int, n: nat)
      reads this, reader.Repr()
    {
      && Valid() && n <= |t| && pos == from + n && |src| == from + |t| && t == src[from..]
      && (forall k :: 0 <= k < n ==> !IsValueTerminator(t[k]))
      && 0 <= h - from <= HISTORY_BUFFER_SIZE && reader.headIndex == if from + n > h then from + n else h
    }

    lemma {:induction false} ScanStarts()
      requires Valid() && cp.Some?
      ensures Scanning(Rest(), pos, reader.headIndex, 0) && |Rest()| > 0 && Counted(Rest(), 0, 0)
    {
    }

    lemma {:induction false} ScanCounts(t: Text, from: nat, h: int, n: nat, count: nat)
      requires Scanning(t, from, h, n) && Counted(t, n, count) && cp.Some?
      ensures Counted(t, n + 1, if cp.value == TomlIntegers.UNDERSCORE then count else count + 1)
    {
      hide BufferedReader.StandsAt, IsValueTerminator;
      assert cp.value == t[n] && t[..n + 1] == t[..n] + [t[n]];
      TomlIntegers.StrippedSnoc(t[..n], t[n]);
    }

    method ScanOn(ghost t: Text, ghost from: nat, ghost h: int, ghost n: nat, count: nat) returns (more: nat)
      requires Scanning(t, from, h, n) && Counted(t, n, count) && cp.Some? && !IsValueTerminator(cp.value)
      modifies this`pos, this`at, this`cp, reader.Repr()
      ensures Scanning(t, from, h, n + 1) && Counted(t, n + 1, more)
    {
      hide BufferedReader.StandsAt, IsValueTerminator, BufferedReader.Later, BufferedReader.Deref,
        BufferedReader.InMemory, Counted;
      ScanCounts(t, from, h, n, count);
      more := if cp.value == TomlIntegers.UNDERSCORE then count else count + 1;
      Advance();
    }

    lemma {:induction false} ScanStops(t: Text, from: nat, h: int, n: nat, count: nat)
      requires Scanning(t, from, h, n) && 0 < n <= HISTORY_BUFFER_SIZE && Counted(t, n, count)
      requires n == HISTORY_BUFFER_SIZE || cp.None? || IsValueTerminator(cp.value)
      ensures n == TomlIntegers.LookAhead(t) && (cp.None? <==> n == |t|) && Valid()
      ensures pos == from + n && reader.headIndex == if from + n > h then from + n else h
      ensures reader.Valid() && reader.CanStepBack(n) && count == |TomlIntegers.Stripped(t[..n])|
    {
      TomlIntegers.StopIsTokenEnd(t, 0, n);
      assert reader.StandsAt(src, pos);
    }

    lemma {:induction false} ScanIsBack(t: Text, from: nat)
      requires Valid() && pos == from
      ensures from < |src| ==> cp.Some?
    {
    }
  }
}
