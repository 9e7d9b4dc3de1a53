/** Which texts are paths, told from how they may be put together. */
module TomlPathTexts {
  import opened Wrappers
  import opened TomlChars
  import opened TomlIntegers
  import opened TomlPath

  /** Part of a path: the characters of a key, a dot, an index between brackets with blanks around it, of which the
      closing bracket may be missing, and blanks behind such an index. */
  datatype Piece =
    | Word(text: Text)
    | Dot
    | Indexer(before: Text, digits: Text, behind: Text, closed: bool)
    | Gap(blanks: Text)
  {
    function Text(): Text {
      match this
      case Word(text) => text
      case Dot => [46]
      case Indexer(before, digits, behind, closed) =>
        [91] + (before + (digits + (behind + if closed then [93] else [])))
      case Gap(blanks) => blanks
    }
  }

  predicate Blanks(t: Text) { forall k :: 0 <= k < |t| ==> t[k] == 32 || t[k] == 9 }

  predicate Figures(t: Text) { t != [] && forall k :: 0 <= k < |t| ==> 48 <= t[k] <= 57 }

  /** The number that figures make. */
  function Number(t: Text): nat
    requires Figures(t)
  {
    (if |t| == 1 then 0 else 10 * Number(t[..|t| - 1])) + (t[|t| - 1] - 48)
  }

  /** Where a piece may stand: a word behind no index, a gap only behind a closed one, an index without its bracket only
      at the end or before a dot or another index. */
  predicate Stands(p: Piece, next: seq<Piece>) {
    match p
    case Word(text) =>
      && text != [] && (forall k :: 0 <= k < |text| ==> text[k] != 46 && text[k] != 91 && text[k] != 93)
      && (next == [] || next[0].Dot? || next[0].Indexer?)
    case Dot => next == [] || !next[0].Gap?
    case Indexer(before, digits, behind, closed) =>
      && Blanks(before) && Figures(digits) && Blanks(behind) && Number(digits) < 18446744073709551616
      && (next == [] || next[0].Dot? || next[0].Indexer? || (closed && next[0].Gap?))
    case Gap(blanks) => blanks != [] && Blanks(blanks) && (next == [] || next[0].Dot? || next[0].Indexer?)
  }

  predicate AllStand(ps: seq<Piece>) {
    ps == [] || (Stands(ps[0], ps[1..]) && AllStand(ps[1..]))
  }

  function TextOf(ps: seq<Piece>): Text {
    if ps == [] then [] else ps[0].Text() + TextOf(ps[1..])
  }

  /** What the pieces name. A dot with no key between it and the dot before it, or the beginning, stands for an empty
      key, and so does the end behind a dot. */
  function Named(ps: seq<Piece>, afterDot: bool): seq<Component>
    requires AllStand(ps)
  {
    if ps == [] then (if afterDot then [Key([])] else [])
    else
      match ps[0]
      case Word(text) => [Key(text)] + Named(ps[1..], false)
      case Dot => (if afterDot then [Key([])] else []) + Named(ps[1..], true)
      case Indexer(_, digits, _, _) => [Index(Number(digits))] + Named(ps[1..], false)
      case Gap(_) => Named(ps[1..], false)
  }

  /** Where the first piece may follow. */
  predicate Follows(ps: seq<Piece>, afterIndex: bool, afterDot: bool) {
    ps != [] ==> (ps[0].Gap? ==> afterIndex && !afterDot) && (ps[0].Word? ==> !afterIndex)
  }

  // ---------- Every such text is read ----------

  lemma {:induction false} BlanksAreSkipped(b: Text, t: Text)
    requires Blanks(b) && (t == [] || (t[0] != 32 && t[0] != 9))
    ensures SkipBlanks(b + t) == t
  {
    if b == [] {
      assert b + t == t;
    } else {
      assert (b + t)[1..] == b[1..] + t;
      BlanksAreSkipped(b[1..], t);
    }
  }

  lemma {:induction false} FiguresAreDigits(ds: Text)
    requires Figures(ds)
    ensures AllDigits(Decimal, ds) && Value(Decimal, ds) == Number(ds)
  {
    if |ds| == 1 {
      assert ds[..0] == [];
      assert Value(Decimal, []) == 0;
    } else {
      FiguresAreDigits(ds[..|ds| - 1]);
    }
  }

  /** What follows an index: a bracket, or the end, a dot or another index. */
  lemma {:induction false} IndexIsRead(p: Piece, rest: Text)
    requires p.Indexer? && Blanks(p.before) && Figures(p.digits) && Blanks(p.behind)
    requires Number(p.digits) < 18446744073709551616
    requires !p.closed ==> rest == [] || rest[0] == 46 || rest[0] == 91
    ensures (p.Text() + rest)[0] == 91
    ensures ReadIndex((p.Text() + rest)[1..]) == Some((Number(p.digits), rest))
  {
    var tail := (if p.closed then [93] else []) + rest;
    var behind := p.behind + tail;
    assert (p.Text() + rest)[1..] == p.before + (p.digits + behind);
    BlanksAreSkipped(p.before, p.digits + behind);
    FiguresAreDigits(p.digits);
    TakeDigitsReads(p.digits, behind);
    BlanksAreSkipped(p.behind, tail);
    if p.closed { assert tail[1..] == rest; } else { assert tail == rest; }
    hide Value, Number, SkipBlanks, TakeDigits, Blanks, Figures, AllDigits;
  }

  lemma {:induction false} StartOf(ps: seq<Piece>)
    requires AllStand(ps)
    ensures ps == [] <==> TextOf(ps) == []
    ensures ps != [] ==>
              match ps[0]
              case Word(text) => TextOf(ps)[0] == text[0]
              case Dot => TextOf(ps)[0] == 46
              case Indexer(_, _, _, _) => TextOf(ps)[0] == 91
              case Gap(blanks) => TextOf(ps)[0] == 32 || TextOf(ps)[0] == 9
  {
  }

  lemma {:induction false} PiecesAreRead(ps: seq<Piece>, afterIndex: bool, afterDot: bool)
    requires AllStand(ps) && Follows(ps, afterIndex, afterDot)
    ensures ParseFrom(TextOf(ps), afterIndex, afterDot) == Some(Named(ps, afterDot))
  {
    if ps != [] {
      var rest := TextOf(ps[1..]);
      StartOf(ps[1..]);
      hide Number, ReadIndex, Blanks, Figures;
      match ps[0]
      case Word(text) =>
        TakeKeyReads(text, rest);
        PiecesAreRead(ps[1..], false, false);
      case Dot =>
        assert TextOf(ps)[1..] == rest;
        PiecesAreRead(ps[1..], false, true);
      case Indexer(_, _, _, _) =>
        IndexIsRead(ps[0], rest);
        PiecesAreRead(ps[1..], true, false);
      case Gap(blanks) =>
        GapIsRead(blanks, rest);
        PiecesAreRead(ps[1..], false, false);
    }
  }

  lemma {:induction false} GapIsRead(blanks: Text, rest: Text)
    requires blanks != [] && Blanks(blanks) && (rest == [] || IsSpecial(rest[0]))
    ensures ParseFrom(blanks + rest, true, false) == ParseFrom(rest, false, false)
  {
    TakeKeyReads(blanks, rest);
  }

  // ---------- Everything that is read is such a text ----------

  lemma {:induction false} BlanksInFront(t: Text) returns (b: Text)
    ensures Blanks(b) && t == b + SkipBlanks(t)
  {
    if t != [] && IsBlank(t[0]) {
      var c := BlanksInFront(t[1..]);
      b := [t[0]] + c;
    } else {
      b := [];
    }
  }

  lemma {:induction false} DigitsInFront(t: Text)
    ensures t == TakeDigits(t).0 + TakeDigits(t).1
    ensures TakeDigits(t).0 != [] ==> Figures(TakeDigits(t).0)
  {
    if t != [] && IsDecimal(t[0]) { DigitsInFront(t[1..]); }
  }

  lemma {:induction false} KeyInFront(t: Text)
    ensures t == TakeKey(t).0 + TakeKey(t).1
    ensures TakeKey(t).1 == [] || IsSpecial(TakeKey(t).1[0])
  {
    if t != [] && !IsSpecial(t[0]) { KeyInFront(t[1..]); }
  }

  lemma {:induction false} IndexInFront(t: Text) returns (p: Piece)
    requires t != [] && t[0] == 91 && ReadIndex(t[1..]).Some?
    ensures var rest := ReadIndex(t[1..]).value.1;
            && p.Indexer? && Blanks(p.before) && Figures(p.digits) && Blanks(p.behind)
            && Number(p.digits) < 18446744073709551616 && ReadIndex(t[1..]).value.0 == Number(p.digits)
            && t == p.Text() + rest && (!p.closed ==> rest == [] || rest[0] == 46 || rest[0] == 91)
  {
    var u := t[1..];
    var before := BlanksInFront(u);
    var d := TakeDigits(SkipBlanks(u));
    DigitsInFront(SkipBlanks(u));
    FiguresAreDigits(d.0);
    var behind := BlanksInFront(d.1);
    var rest, tail := ReadIndex(u).value.1, SkipBlanks(d.1);
    var closed := tail != [] && tail[0] == 93;
    p := Indexer(before, d.0, behind, closed);
    if closed { assert tail == [93] + rest; } else { assert tail == rest && [] + rest == rest; }
    assert u == before + (d.0 + (behind + tail));
    assert t == [91] + u;
    Regrouped(before, d.0, behind, if closed then [93] else [], rest);
    hide Number, Value, TakeDigits, SkipBlanks, Blanks, Figures;
  }

  lemma {:induction false} Regrouped(a: Text, b: Text, c: Text, d: Text, e: Text)
    ensures [91] + (a + (b + (c + d))) + e == [91] + (a + (b + (c + (d + e))))
  {
  }

  lemma {:induction false} ReadIsPieces(t: Text, afterIndex: bool, afterDot: bool) returns (ps: seq<Piece>)
    requires ParseFrom(t, afterIndex, afterDot).Some? && !(afterIndex && afterDot)
    ensures AllStand(ps) && Follows(ps, afterIndex, afterDot) && TextOf(ps) == t
    ensures ParseFrom(t, afterIndex, afterDot) == Some(Named(ps, afterDot))
    decreases |t|
  {
    if t == [] {
      ps := [];
    } else {
      var rest: Text, p: Piece, others: seq<Piece>;
      if t[0] == 91 {
        p := IndexInFront(t);
        rest := ReadIndex(t[1..]).value.1;
        others := ReadIsPieces(rest, true, false);
      } else if t[0] == 46 {
        p, rest := Dot, t[1..];
        others := ReadIsPieces(rest, false, true);
      } else {
        KeyInFront(t);
        var key := TakeKey(t);
        p, rest := if afterIndex then Gap(key.0) else Word(key.0), key.1;
        others := ReadIsPieces(rest, false, false);
      }
      StartOf(others);
      ps := [p] + others;
      assert ps[1..] == others;
      assert t == p.Text() + rest;
      PiecesAreRead(ps, afterIndex, afterDot);
    }
  }

  /** A text is a path if and only if it is made of such pieces, and it names what they name. */
  ghost predicate MadeOfPieces(path: Text, components: seq<Component>) {
    exists ps: seq<Piece> ::
      AllStand(ps) && Follows(ps, false, true) && TextOf(ps) == path && Named(ps, true) == components
  }

  lemma {:induction false} PathsAreTheseTexts(path: Text, components: seq<Component>)
    ensures Parse(path) == Some(components) <==> MadeOfPieces(path, components)
  {
    if Parse(path) == Some(components) {
      var ps := ReadIsPieces(path, false, true);
    }
    if MadeOfPieces(path, components) {
      var ps :| AllStand(ps) && Follows(ps, false, true) && TextOf(ps) == path && Named(ps, true) == components;
      PiecesAreRead(ps, false, true);
    }
  }

  // ---------- Texts that are no paths ----------

  /** No figure behind an opening bracket and blanks. */
  lemma {:induction false} NoFigure(b: Text, t: Text)
    requires Blanks(b) && (t == [] || (t[0] != 32 && t[0] != 9 && !(48 <= t[0] <= 57)))
    ensures Parse([91] + b + t) == None
  {
    assert ([91] + b + t)[1..] == b + t;
    BlanksAreSkipped(b, t);
  }

  /** An index that is no `size_t` value, or with a character behind its figures and blanks that ends no index. */
  lemma {:induction false} BadIndex(b: Text, ds: Text, behind: Text, t: Text)
    requires Blanks(b) && Figures(ds) && Blanks(behind)
    requires t == [] || (t[0] != 32 && t[0] != 9 && !(48 <= t[0] <= 57))
    ensures Number(ds) >= 18446744073709551616 || (t != [] && t[0] != 93 && t[0] != 46 && t[0] != 91)
            ==> Parse([91] + b + ds + behind + t) == None
  {
    assert ([91] + b + ds + behind + t)[1..] == b + (ds + (behind + t));
    BlanksAreSkipped(b, ds + (behind + t));
    FiguresAreDigits(ds);
    TakeDigitsReads(ds, behind + t);
    BlanksAreSkipped(behind, t);
  }

  /** A closing bracket that closes nothing. */
  lemma {:induction false} StrayBracket(word: Text, t: Text)
    requires PlainKey(word)
    ensures Parse(word + [93] + t) == None
  {
    assert word + [93] + t == word + ([93] + t);
    TakeKeyReads(word, [93] + t);
    assert ParseFrom([93] + t, false, false) == None;
    if word == [] { assert word + ([93] + t) == [93] + t; }
  }

  /** A word right behind an index, unless it is all blanks. */
  lemma {:induction false} WordBehindIndex(p: Piece, word: Text, t: Text)
    requires p.Indexer? && p.closed && Stands(p, []) && PlainKey(word) && (t == [] || IsSpecial(t[0]))
    requires exists k :: 0 <= k < |word| && word[k] != 32 && word[k] != 9
    ensures Parse(p.Text() + word + t) == None
  {
    assert p.Text() + word + t == p.Text() + (word + t);
    IndexIsRead(p, word + t);
    WordIsRefused(word, t);
    hide ReadIndex, Number;
  }

  lemma {:induction false} WordIsRefused(word: Text, t: Text)
    requires PlainKey(word) && (t == [] || IsSpecial(t[0]))
    requires exists k :: 0 <= k < |word| && word[k] != 32 && word[k] != 9
    ensures ParseFrom(word + t, true, false) == None
  {
    TakeKeyReads(word, t);
    assert (word + t)[0] == word[0] && !IsSpecial(word[0]);
  }
}
