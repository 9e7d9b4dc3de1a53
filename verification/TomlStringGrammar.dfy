/** Which texts are strings, and what they say, told from how they may be put together. */
module TomlStringGrammar {
  import opened Wrappers
  import opened Sequences
  import opened TomlChars
  import opened TomlStrings
  import opened TomlLineEnds

  /** Part of a string between its delimiters: a character that stands for itself, a short escape, an escape with four
      or eight digits, a line break, one or two delimiters, and a line end that is dropped. */
  datatype Piece =
    | Itself(c: int)
    | Escape(letter: int)
    | Digits(digits: Text)
    | Break(crlf: bool)
    | Loose(n: nat)
    | LineEnd(blanks: Text, crlf: bool, run: Text)

  function BreakText(crlf: bool): Text { if crlf then [13, 10] else [10] }

  function PieceText(p: Piece, q: int): Text {
    match p
    case Itself(c) => [c]
    case Escape(letter) => [92, letter]
    case Digits(digits) => [92, if |digits| == 4 then 117 else 85] + digits
    case Break(crlf) => BreakText(crlf)
    case Loose(n) => Quotes(q, n)
    case LineEnd(blanks, crlf, run) => [92] + (blanks + (BreakText(crlf) + run))
  }

  predicate IsHex(c: int) { 48 <= c <= 57 || 65 <= c <= 70 || 97 <= c <= 102 }

  predicate AllHex(t: Text) { forall k :: 0 <= k < |t| ==> IsHex(t[k]) }

  function HexNumber(t: Text): int
    requires AllHex(t)
  {
    if t == [] then 0
    else
      var c := t[|t| - 1];
      16 * HexNumber(t[..|t| - 1]) + if c <= 57 then c - 48 else if c <= 70 then c - 55 else c - 87
  }

  predicate IsShort(letter: int) {
    letter == 98 || letter == 102 || letter == 110 || letter == 114 || letter == 116 || letter == 34 || letter == 92
  }

  /** `\\b`, `\\f`, `\\n`, `\\r`, `\\t`, and the two that stand for themselves. */
  function Short(letter: int): int {
    if letter == 98 then 8 else if letter == 102 then 12 else if letter == 110 then 10
    else if letter == 114 then 13 else if letter == 116 then 9 else letter
  }

  function PieceValue(p: Piece, q: int): Text
    requires p.Digits? ==> AllHex(p.digits)
  {
    match p
    case Itself(c) => [c]
    case Escape(letter) => [Short(letter)]
    case Digits(digits) => [HexNumber(digits)]
    case Break(_) => [10]
    case Loose(n) => Quotes(q, n)
    case LineEnd(_, _, _) => []
  }

  /** Blanks of all kinds and line breaks. */
  predicate IsDropped(w: Text) {
    w == [] || ((w[0] == 10 || StartsBlank(w) || StartsOtherBlank(w)) && IsDropped(w[1..]))
    || (|w| > 1 && w[0] == 13 && w[1] == 10 && IsDropped(w[2..]))
  }

  predicate StartsDropped(t: Text) { StartsBlank(t) || StartsOtherBlank(t) || StartsBreak(t) }

  predicate AllBlank(t: Text) { forall k :: 0 <= k < |t| ==> t[k] == 9 || t[k] == 32 }

  /** Where a piece may stand, before `next`, between delimiters `q`. Escapes are for quotation marks; line breaks and
      loose delimiters for strings of many lines. */
  predicate Stands(p: Piece, q: int, multi: bool, next: Text) {
    match p
    case Itself(c) =>
      && c != q && (c == 92 ==> q == 39)
      && (c == 9 || 32 <= c <= 126 || (128 <= c && !(0xD800 <= c <= 0xDFFF)))
    case Escape(letter) => q == 34 && IsShort(letter)
    case Digits(digits) =>
      && q == 34 && (|digits| == 4 || |digits| == 8) && AllHex(digits)
      && HexNumber(digits) <= 0x10FFFF && !(0xD800 <= HexNumber(digits) <= 0xDFFF)
    case Break(_) => multi
    case Loose(n) => multi && (n == 1 || n == 2) && (next == [] || next[0] != q)
    case LineEnd(blanks, _, run) => q == 34 && multi && AllBlank(blanks) && IsDropped(run) && !StartsDropped(next)
  }

  predicate AllStand(ps: seq<Piece>, q: int, multi: bool, tail: Text) {
    ps == [] || (Stands(ps[0], q, multi, TextOf(ps[1..], q) + tail) && AllStand(ps[1..], q, multi, tail))
  }

  function TextOf(ps: seq<Piece>, q: int): Text {
    if ps == [] then [] else PieceText(ps[0], q) + TextOf(ps[1..], q)
  }

  function ValueOf(ps: seq<Piece>, q: int, multi: bool, tail: Text): Text
    requires AllStand(ps, q, multi, tail)
  {
    if ps == [] then [] else PieceValue(ps[0], q) + ValueOf(ps[1..], q, multi, tail)
  }

  /** The rest of a string, as the parser reads it. */
  function Body(q: int, s: Text, multi: bool): Option<Parsed> {
    if q == 39 then LiteralBody(s, multi) else BasicBody(s, multi, false)
  }

  // ---------- One piece is read ----------

  predicate IsQuote(q: int) { q == 34 || q == 39 }

  lemma {:induction false} RunOfQuotes(q: int, n: nat, t: Text, limit: nat)
    requires n <= limit && (n == limit || t == [] || t[0] != q)
    ensures QuoteRun(Quotes(q, n) + t, q, limit) == n && (Quotes(q, n) + t)[n..] == t && |Quotes(q, n)| == n
    decreases n
  {
    if n == 0 {
      assert Quotes(q, n) + t == t;
    } else {
      assert (Quotes(q, n) + t)[1..] == Quotes(q, n - 1) + t;
      RunOfQuotes(q, n - 1, t, limit - 1);
    }
  }

  lemma {:induction false} HexIsRead(ds: Text, t: Text, acc: int)
    requires AllHex(ds)
    ensures HexSequence(ds + t, |ds|, acc)
            == HexSequence(t, 0, acc * TomlIntegers.Pow(16, |ds|) + HexNumber(ds))
  {
    HexIsDigits(ds);
    HexSequenceReads(ds, t, acc);
  }

  lemma {:induction false} HexIsDigits(ds: Text)
    requires AllHex(ds)
    ensures TomlIntegers.AllDigits(TomlIntegers.Hexadecimal, ds)
    ensures TomlIntegers.Value(TomlIntegers.Hexadecimal, ds) == HexNumber(ds)
  {
    if ds != [] { HexIsDigits(ds[..|ds| - 1]); }
  }

  /** What is left to be read of a line end behind its backslash. */
  lemma {:induction false} DroppedIsSkipped(w: Text, t: Text)
    requires IsDropped(w)
    ensures BasicBody(w + t, true, true) == BasicBody(t, true, true)
    decreases |w|
  {
    if w == [] {
      assert w + t == t;
    } else if w[0] == 13 {
      assert (w + t)[2..] == w[2..] + t;
      DroppedIsSkipped(w[2..], t);
      NothingPrepended(BasicBody(t, true, true));
    } else {
      assert (w + t)[1..] == w[1..] + t;
      DroppedIsSkipped(w[1..], t);
      NothingPrepended(BasicBody(t, true, true));
    }
  }

  lemma {:induction false} BlanksLead(blanks: Text, t: Text)
    requires AllBlank(blanks) && t != [] && !IsHorizontalWhitespace(t[0])
    ensures LeadingWhitespace(blanks + t) == Some(t)
  {
    if blanks == [] {
      assert blanks + t == t;
    } else {
      assert (blanks + t)[1..] == blanks[1..] + t;
      BlanksLead(blanks[1..], t);
    }
  }

  lemma {:induction false} NotSkipping(t: Text)
    requires !StartsDropped(t)
    ensures BasicBody(t, true, true) == BasicBody(t, true, false)
  {
  }

  lemma {:induction false} LineEndIsOne(p: Piece, next: Text)
    requires p.LineEnd? && Stands(p, 34, true, next)
    ensures BasicBody(PieceText(p, 34) + next, true, false) == BasicBody(next, true, false)
  {
    var broken := BreakText(p.crlf) + (p.run + next);
    assert (PieceText(p, 34) + next)[1..] == p.blanks + broken;
    BlanksLead(p.blanks, broken);
    assert LineBreak(broken) == Broken(p.run + next) by {
      if p.crlf { assert broken[2..] == p.run + next; } else { assert broken[1..] == p.run + next; }
    }
    assert (p.blanks + broken)[0] == if p.blanks == [] then broken[0] else p.blanks[0];
    DroppedIsSkipped(p.run, next);
    NotSkipping(next);
    hide IsDropped, LeadingWhitespace, LineBreak;
  }

  /** An escape is what stands behind its backslash. */
  lemma {:induction false} BackslashIsOne(s: Text, multi: bool, c: int, next: Text)
    requires s != [] && !IsWhitespace(s[0]) && EscapedCodePoint(s) == Some((c, next))
    ensures BasicBody([92] + s, multi, false) == Prepend([c], BasicBody(next, multi, false))
  {
    assert ([92] + s)[1..] == s;
    hide EscapedCodePoint, IsWhitespace;
  }

  lemma {:induction false} DigitsAreOne(letter: int, digits: Text, next: Text)
    requires AllHex(digits) && |digits| == (if letter == 117 then 4 else 8) && (letter == 117 || letter == 85)
    requires HexNumber(digits) <= 0x10FFFF && !(0xD800 <= HexNumber(digits) <= 0xDFFF)
    ensures EscapedCodePoint([letter] + digits + next) == Some((HexNumber(digits), next))
  {
    assert ([letter] + digits + next)[1..] == digits + next;
    HexIsRead(digits, next, 0);
    assert HexSequence(next, 0, HexNumber(digits)) == Some((HexNumber(digits), next));
    hide HexNumber, HexSequence, AllHex;
  }

  lemma {:induction false} ShortIsOne(letter: int, multi: bool, next: Text)
    requires IsShort(letter)
    ensures BasicBody([92, letter] + next, multi, false) == Prepend([Short(letter)], BasicBody(next, multi, false))
  {
    var s := [letter] + next;
    assert [92, letter] + next == [92] + s && s[1..] == next;
    assert EscapedCodePoint(s) == Some((Short(letter), next));
    hide EscapedCodePoint, BasicBody;
    BackslashIsOne(s, multi, Short(letter), next);
  }

  lemma {:induction false} LongIsOne(digits: Text, multi: bool, next: Text)
    requires Stands(Digits(digits), 34, multi, next)
    ensures BasicBody(PieceText(Digits(digits), 34) + next, multi, false)
            == Prepend([HexNumber(digits)], BasicBody(next, multi, false))
  {
    hide BasicBody, HexNumber, EscapedCodePoint, AllHex;
    var letter := if |digits| == 4 then 117 else 85;
    var s := [letter] + digits + next;
    assert PieceText(Digits(digits), 34) + next == [92] + s;
    assert s != [] && s[0] == letter && !IsWhitespace(letter);
    hide *;
    DigitsAreOne(letter, digits, next);
    BackslashIsOne(s, multi, HexNumber(digits), next);
  }

  lemma {:induction false} LooseIsOne(n: nat, q: int, next: Text)
    requires (n == 1 || n == 2) && (next == [] || next[0] != q) && IsQuote(q)
    ensures Body(q, Quotes(q, n) + next, true) == Prepend(Quotes(q, n), Body(q, next, true))
  {
    RunOfQuotes(q, n, next, 5);
    assert (Quotes(q, n) + next)[0] == q;
  }

  lemma {:induction false} PieceIsRead(p: Piece, q: int, multi: bool, next: Text)
    requires IsQuote(q) && Stands(p, q, multi, next)
    ensures Body(q, PieceText(p, q) + next, multi) == Prepend(PieceValue(p, q), Body(q, next, multi))
  {
    match p
    case Itself(c) => assert (PieceText(p, q) + next)[1..] == next;
    case Escape(letter) => ShortIsOne(letter, multi, next);
    case Digits(digits) => LongIsOne(digits, multi, next);
    case Break(crlf) =>
      if crlf { assert ([13, 10] + next)[2..] == next; } else { assert ([10] + next)[1..] == next; }
    case Loose(n) => LooseIsOne(n, q, next);
    case LineEnd(_, _, _) =>
      LineEndIsOne(p, next);
      NothingPrepended(BasicBody(next, multi, false));
  }

  lemma {:induction false} PrependTwice(a: Text, b: Text, r: Option<Parsed>)
    ensures Prepend(a, Prepend(b, r)) == Prepend(a + b, r)
  {
    if r.Some? { Regroup(a, b, r.value.value); }
  }

  /** Pieces are read as what they say, and then what follows. */
  lemma {:induction false} PiecesAreRead(ps: seq<Piece>, q: int, multi: bool, tail: Text)
    requires IsQuote(q) && AllStand(ps, q, multi, tail)
    ensures Body(q, TextOf(ps, q) + tail, multi) == Prepend(ValueOf(ps, q, multi, tail), Body(q, tail, multi))
  {
    if ps == [] {
      assert TextOf(ps, q) + tail == tail;
      NothingPrepended(Body(q, tail, multi));
    } else {
      hide Body, Stands, PieceText, PieceValue;
      PieceIsRead(ps[0], q, multi, TextOf(ps[1..], q) + tail);
      PiecesAreRead(ps[1..], q, multi, tail);
      Regroup(PieceText(ps[0], q), TextOf(ps[1..], q), tail);
      PrependTwice(PieceValue(ps[0], q), ValueOf(ps[1..], q, multi, tail), Body(q, tail, multi));
    }
  }

  // ---------- The end of a string ----------

  /** The closing delimiter: one, or three to five, of which the first two may belong to the value. */
  predicate Closes(q: int, multi: bool, n: nat, rest: Text) {
    if multi then 3 <= n <= 5 && (n == 5 || rest == [] || rest[0] != q) else n == 1
  }

  function Extra(q: int, multi: bool, n: nat): Text
    requires multi ==> n >= 3
  {
    if multi then Quotes(q, n - 3) else []
  }

  lemma {:induction false} ClosingIsRead(q: int, multi: bool, n: nat, rest: Text)
    requires IsQuote(q) && Closes(q, multi, n, rest)
    ensures Body(q, Quotes(q, n) + rest, multi) == Some(Parsed(Extra(q, multi, n), rest))
  {
    if multi {
      RunOfQuotes(q, n, rest, 5);
      assert (Quotes(q, n) + rest)[0] == q;
    } else {
      assert Quotes(q, 1) == [q] + Quotes(q, 0) == [q];
      assert (Quotes(q, n) + rest)[1..] == rest;
    }
  }

  // ---------- Everything that is read is made of pieces ----------

  lemma {:induction false} HexInFront(s: Text, n: nat, acc: int)
    requires HexSequence(s, n, acc).Some?
    ensures n <= |s| && AllHex(s[..n])
    decreases n
  {
    if n > 0 { HexInFront(s[1..], n - 1, acc * 16 + HexToDec(s[0])); }
  }

  lemma {:induction false} HexSplits(s: Text, n: nat)
    requires HexSequence(s, n, 0).Some?
    ensures n <= |s| && AllHex(s[..n]) && HexSequence(s, n, 0) == Some((HexNumber(s[..n]), s[n..]))
    ensures HexNumber(s[..n]) <= 0x10FFFF && !(0xD800 <= HexNumber(s[..n]) <= 0xDFFF)
  {
    HexInFront(s, n, 0);
    assert s == s[..n] + s[n..];
    HexIsRead(s[..n], s[n..], 0);
    hide HexNumber;
  }

  lemma {:induction false} BlanksInFront(s: Text) returns (blanks: Text)
    requires LeadingWhitespace(s).Some?
    ensures AllBlank(blanks) && s == blanks + LeadingWhitespace(s).value
  {
    if s == [] || !IsHorizontalWhitespace(s[0]) {
      blanks := [];
    } else {
      var others := BlanksInFront(s[1..]);
      blanks := [s[0]] + others;
    }
  }

  /** What is skipped at the front. */
  lemma {:induction false} DroppedInFront(s: Text) returns (run: Text, next: Text)
    requires BasicBody(s, true, true).Some?
    ensures s == run + next && IsDropped(run) && !StartsDropped(next)
    decreases |s|
  {
    if s != [] && (s[0] == 10 || StartsBlank(s) || StartsOtherBlank(s)) {
      NothingPrepended(BasicBody(s[1..], true, true));
      run, next := DroppedInFront(s[1..]);
      run := [s[0]] + run;
      assert run[1..] + next == s[1..];
    } else if StartsBreak(s) {
      NothingPrepended(BasicBody(s[2..], true, true));
      run, next := DroppedInFront(s[2..]);
      run := [s[0], s[1]] + run;
      assert run[2..] + next == s[2..];
    } else {
      run, next := [], s;
    }
  }

  lemma {:induction false} QuotesInFront(s: Text, q: int, n: nat)
    requires n <= |s| && forall k :: 0 <= k < n ==> s[k] == q
    ensures s == Quotes(q, n) + s[n..]
  {
    if n > 0 {
      QuotesInFront(s[1..], q, n - 1);
      assert s == [q] + s[1..] && s[1..][n - 1..] == s[n..];
      Regroup([q], Quotes(q, n - 1), s[n..]);
    } else {
      assert s[0..] == s;
    }
  }

  /** What stands at a delimiter: the end of the string, or a loose one. */
  lemma {:induction false} AtDelimiter(q: int, s: Text, multi: bool) returns (n: nat)
    requires IsQuote(q) && s != [] && s[0] == q && Body(q, s, multi).Some?
    ensures n <= |s| && s == Quotes(q, n) + s[n..]
    ensures if Closes(q, multi, n, s[n..]) then true else Stands(Loose(n), q, multi, s[n..])
  {
    n := if multi then QuoteRun(s, q, 5) else 1;
    QuotesInFront(s, q, n);
  }

  /** The line end behind a backslash. */
  lemma {:induction false} AtLineEnd(s: Text) returns (p: Piece, next: Text)
    requires BasicBody([92] + s, true, false).Some? && s != [] && IsWhitespace(s[0])
    ensures p.LineEnd? && [92] + s == PieceText(p, 34) + next && Stands(p, 34, true, next)
  {
    assert ([92] + s)[1..] == s;
    var broken := LeadingWhitespace(s).value;
    var blanks := BlanksInFront(s);
    var rest := LineBreak(broken).rest;
    var run;
    run, next := DroppedInFront(rest);
    var crlf := broken[0] == 13;
    p := LineEnd(blanks, crlf, run);
    assert broken == BreakText(crlf) + rest;
    assert [92] + s == [92] + (blanks + (BreakText(crlf) + (run + next)));
    RegroupFour(blanks, BreakText(crlf), run, next);
    hide IsDropped, StartsDropped;
  }

  lemma {:induction false} RegroupFour(a: Text, b: Text, c: Text, d: Text)
    ensures [92] + (a + (b + (c + d))) == [92] + (a + (b + c)) + d
  {
  }

  /** An escape behind a backslash. */
  lemma {:induction false} AtEscape(s: Text, multi: bool) returns (p: Piece, next: Text)
    requires BasicBody([92] + s, multi, false).Some? && !(multi && s != [] && IsWhitespace(s[0]))
    ensures [92] + s == PieceText(p, 34) + next && Stands(p, 34, multi, next) && (p.Escape? || p.Digits?)
  {
    assert ([92] + s)[1..] == s;
    hide HexNumber, HexSequence, AllHex;
    if s[0] == 117 || s[0] == 85 {
      var n := if s[0] == 117 then 4 else 8;
      HexSplits(s[1..], n);
      p, next := Digits(s[1..][..n]), s[1..][n..];
      assert [92] + s == [92, s[0]] + s[1..][..n] + s[1..][n..];
    } else {
      p, next := Escape(s[0]), s[1..];
      assert [92] + s == [92, s[0]] + s[1..];
    }
  }

  /** Anything else stands for itself, or is a line break. */
  lemma {:induction false} AtCharacter(q: int, s: Text, multi: bool) returns (p: Piece, next: Text)
    requires IsQuote(q) && s != [] && s[0] != q && !(q == 34 && s[0] == 92) && Body(q, s, multi).Some?
    ensures s == PieceText(p, q) + next && Stands(p, q, multi, next)
  {
    if multi && IsAsciiVerticalWhitespace(s[0]) {
      p, next := Break(s[0] == 13), LineBreak(s).rest;
    } else {
      p, next := Itself(s[0]), s[1..];
    }
  }

  lemma {:induction false} ReadIsPieces(q: int, s: Text, multi: bool) returns (ps: seq<Piece>, n: nat, rest: Text)
    requires IsQuote(q) && Body(q, s, multi).Some?
    ensures Closes(q, multi, n, rest) && s == TextOf(ps, q) + (Quotes(q, n) + rest)
    ensures AllStand(ps, q, multi, Quotes(q, n) + rest)
    decreases |s|
  {
    var p: Piece, next: Text;
    assert s != [];
    if s[0] == q {
      n := AtDelimiter(q, s, multi);
      if Closes(q, multi, n, s[n..]) {
        ps, rest := [], s[n..];
        assert s == [] + s;
        return;
      }
      p, next := Loose(n), s[n..];
    } else if q == 34 && s[0] == 92 {
      assert s == [92] + s[1..];
      if multi && |s| > 1 && IsWhitespace(s[1]) {
        p, next := AtLineEnd(s[1..]);
      } else {
        p, next := AtEscape(s[1..], multi);
      }
    } else {
      p, next := AtCharacter(q, s, multi);
    }
    PieceIsRead(p, q, multi, next);
    PieceIsLong(p, q, multi, next);
    var others;
    others, n, rest := ReadIsPieces(q, next, multi);
    ps := [p] + others;
    OnePieceMore(p, others, q, multi, next, Quotes(q, n) + rest);
  }

  lemma {:induction false} PieceIsLong(p: Piece, q: int, multi: bool, next: Text)
    requires Stands(p, q, multi, next)
    ensures PieceText(p, q) != []
  {
  }

  lemma {:induction false} OnePieceMore(
      p: Piece, others: seq<Piece>, q: int, multi: bool, next: Text, tail: Text)
    requires Stands(p, q, multi, next) && AllStand(others, q, multi, tail) && next == TextOf(others, q) + tail
    ensures AllStand([p] + others, q, multi, tail)
    ensures PieceText(p, q) + next == TextOf([p] + others, q) + tail
  {
    assert ([p] + others)[1..] == others;
    Regroup(PieceText(p, q), TextOf(others, q), tail);
    hide Stands, PieceText;
  }

  // ---------- Whole strings ----------

  predicate IsShortString(s: Text, q: int, value: Text, rest: Text, ps: seq<Piece>) {
    && AllStand(ps, q, false, [q] + rest) && (ps == [] ==> rest == [] || rest[0] != q)
    && s == [q] + (TextOf(ps, q) + ([q] + rest)) && value == ValueOf(ps, q, false, [q] + rest)
  }

  predicate IsLongString(s: Text, q: int, value: Text, rest: Text, lead: Text, ps: seq<Piece>, n: nat) {
    && Closes(q, true, n, rest) && AllStand(ps, q, true, Quotes(q, n) + rest)
    && (lead == [] || lead == [10] || lead == [13, 10])
    && (lead == [] ==> !StartsBreak(TextOf(ps, q) + (Quotes(q, n) + rest)))
    && s == [q, q, q] + (lead + (TextOf(ps, q) + (Quotes(q, n) + rest)))
    && value == ValueOf(ps, q, true, Quotes(q, n) + rest) + Quotes(q, n - 3)
  }

  /** The text is a string, from its first delimiter on: pieces between two delimiters, or between three and three to
      five of them, with a line break at the front that does not count. */
  ghost predicate IsString(s: Text, q: int, value: Text, rest: Text) {
    || (exists ps: seq<Piece> :: IsShortString(s, q, value, rest, ps))
    || (exists lead, ps: seq<Piece>, n: nat :: IsLongString(s, q, value, rest, lead, ps, n))
  }

  lemma {:induction false} OneQuote(q: int)
    ensures Quotes(q, 1) == [q] && Quotes(q, 0) == []
  {
  }

  lemma {:induction false} ShortIsRead(s: Text, q: int, value: Text, rest: Text, ps: seq<Piece>)
    requires IsQuote(q) && IsShortString(s, q, value, rest, ps)
    ensures s[0] == q && ParseString(s) == Some(Parsed(value, rest))
  {
    var tail := [q] + rest;
    OneQuote(q);
    ClosingIsRead(q, false, 1, rest);
    PiecesAreRead(ps, q, false, tail);
    assert s[1..] == TextOf(ps, q) + tail && value + [] == value;
    if ps == [] {
      assert TextOf(ps, q) + tail == tail;
    } else {
      PieceIsLong(ps[0], q, false, TextOf(ps[1..], q) + tail);
      FirstIsNoQuote(ps[0], q, TextOf(ps[1..], q) + tail);
      assert s[1] == PieceText(ps[0], q)[0];
    }
    hide BasicBody, LiteralBody, PieceText, Stands, AllStand;
  }

  lemma {:induction false} FirstIsNoQuote(p: Piece, q: int, next: Text)
    requires IsQuote(q) && Stands(p, q, false, next)
    ensures PieceText(p, q) != [] && PieceText(p, q)[0] != q
  {
  }

  lemma {:induction false} LeadIsBroken(lead: Text, t: Text)
    requires lead == [10] || lead == [13, 10] || (lead == [] && !StartsBreak(t))
    ensures LineBreak(lead + t) == (if lead != [] then Broken(t) else LineBreak(t))
    ensures lead == [] ==> !LineBreak(t).Broken?
  {
    if lead == [] { assert lead + t == t; } else { assert (lead + t)[|lead|..] == t; }
  }

  lemma {:induction false} BadLeadIsRefused(q: int, t: Text)
    requires IsQuote(q) && LineBreak(t).BadBreak?
    ensures Body(q, t, true) == None
  {
  }

  lemma {:induction false} OpenedByThree(q: int, t: Text)
    requires IsQuote(q)
    ensures ParseString([q, q, q] + t)
            == match LineBreak(t)
               case BadBreak => None
               case NoBreak => Body(q, t, true)
               case Broken(u) => Body(q, u, true)
  {
    assert ([q, q, q] + t)[3..] == t;
    hide BasicBody, LiteralBody, LineBreak;
  }

  lemma {:induction false} LongIsRead(s: Text, q: int, value: Text, rest: Text, lead: Text, ps: seq<Piece>, n: nat)
    requires IsQuote(q) && IsLongString(s, q, value, rest, lead, ps, n)
    ensures s[0] == q && ParseString(s) == Some(Parsed(value, rest))
  {
    var tail := Quotes(q, n) + rest;
    var body := TextOf(ps, q) + tail;
    ClosingIsRead(q, true, n, rest);
    PiecesAreRead(ps, q, true, tail);
    OpenedByThree(q, lead + body);
    LeadIsBroken(lead, body);
    assert lead == [] ==> lead + body == body;
    if lead == [] && LineBreak(body).BadBreak? { BadLeadIsRefused(q, body); }
    hide ParseString, Body, AllStand, TextOf, LineBreak, Quotes, ValueOf, Stands, StartsBreak;
  }

  /** What follows three delimiters. */
  lemma {:induction false} LongIsPieces(s: Text, q: int) returns (lead: Text, ps: seq<Piece>, n: nat, rest: Text)
    requires IsQuote(q) && |s| >= 3 && s[0] == s[1] == s[2] == q && ParseString(s).Some?
    ensures IsLongString(s, q, ParseString(s).value.value, rest, lead, ps, n) && ParseString(s).value.rest == rest
  {
    hide ParseString, Body, LineBreak, AllStand, TextOf, Quotes, Closes, StartsBreak, IsLongString;
    var t := s[3..];
    assert s == [q, q, q] + t;
    OpenedByThree(q, t);
    lead := LeadOf(t);
    var body := t[|lead|..];
    LeadSplits(t);
    ps, n, rest := ReadIsPieces(q, body, true);
    LongFromPieces(s, q, rest, lead, ps, n);
  }

  function LeadOf(t: Text): (lead: Text)
    ensures |lead| <= |t| && lead == t[..|lead|]
  {
    if !StartsBreak(t) then [] else if t[0] == 13 then [13, 10] else [10]
  }

  lemma {:induction false} LeadSplits(t: Text)
    requires !LineBreak(t).BadBreak?
    ensures var lead := LeadOf(t);
            && (lead == [] || lead == [10] || lead == [13, 10])
            && (lead == [] ==> !StartsBreak(t) && t[|lead|..] == t && LineBreak(t).NoBreak?)
            && (lead != [] ==> LineBreak(t) == Broken(t[|lead|..]))
  {
  }

  lemma {:induction false} LongFromPieces(s: Text, q: int, rest: Text, lead: Text, ps: seq<Piece>, n: nat)
    requires IsQuote(q) && Closes(q, true, n, rest) && AllStand(ps, q, true, Quotes(q, n) + rest)
    requires lead == [] || lead == [10] || lead == [13, 10]
    requires lead == [] ==> !StartsBreak(TextOf(ps, q) + (Quotes(q, n) + rest))
    requires s == [q, q, q] + (lead + (TextOf(ps, q) + (Quotes(q, n) + rest))) && ParseString(s).Some?
    ensures IsLongString(s, q, ParseString(s).value.value, rest, lead, ps, n) && ParseString(s).value.rest == rest
  {
    hide ParseString, AllStand, TextOf, Quotes, ValueOf, StartsBreak;
    LongIsRead(s, q, ValueOf(ps, q, true, Quotes(q, n) + rest) + Quotes(q, n - 3), rest, lead, ps, n);
  }

  /** What follows one delimiter. */
  lemma {:induction false} ShortIsPieces(s: Text, q: int) returns (ps: seq<Piece>, rest: Text)
    requires IsQuote(q) && s != [] && s[0] == q && ParseString(s).Some?
    requires !(|s| >= 3 && s[0] == s[1] == s[2])
    ensures IsShortString(s, q, ParseString(s).value.value, rest, ps) && ParseString(s).value.rest == rest
  {
    OneQuote(q);
    if |s| == 2 {
      ps, rest := [], [];
      assert s == [q] + (TextOf(ps, q) + ([q] + rest));
    } else {
      var n;
      ps, n, rest := ReadIsPieces(q, s[1..], false);
      assert s == [q] + (TextOf(ps, q) + ([q] + rest));
      if ps == [] && rest != [] { assert s[1] == q && s[2] == rest[0]; }
    }
    hide BasicBody, LiteralBody, AllStand;
    ShortIsRead(s, q, ValueOf(ps, q, false, [q] + rest), rest, ps);
  }

  /** A text is read as a string, with this value and this rest, if and only if it is one. */
  lemma {:induction false} StringsAreThese(s: Text, q: int, value: Text, rest: Text)
    requires IsQuote(q) && s != [] && s[0] == q
    ensures ParseString(s) == Some(Parsed(value, rest)) <==> IsString(s, q, value, rest)
  {
    hide IsShortString, IsLongString, ParseString;
    if ParseString(s) == Some(Parsed(value, rest)) {
      if |s| >= 3 && s[0] == s[1] == s[2] {
        var lead, ps, n, r := LongIsPieces(s, q);
      } else {
        var ps, r := ShortIsPieces(s, q);
      }
    }
    if ps: seq<Piece> :| IsShortString(s, q, value, rest, ps) { ShortIsRead(s, q, value, rest, ps); }
    if lead, ps: seq<Piece>, n: nat :| IsLongString(s, q, value, rest, lead, ps, n) {
      LongIsRead(s, q, value, rest, lead, ps, n);
    }
  }
}
