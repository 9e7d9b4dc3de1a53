/** The macro planner: which key a trigger expands, what the expansion looks like, how much it
    erases, and the two ways it is written out. Characters are UTF-16 or UTF-32 units. */
module MacroCase {

  import opened Wrappers
  import opened Sequences

  type Text = seq<int>

  const BACKSLASH := '\\' as int
  const LETTER_N := 'n' as int
  const CARRIAGE_RETURN := 0x0D
  const LINE_FEED := 0x0A
  const SPACE := ' ' as int
  const APOSTROPHE := '\'' as int
  const RIGHT_QUOTE := 0x2019

  /** The case mapping and the character classes of the current locale. */
  datatype CharTables = CharTables(upper: int -> int, lower: int -> int, isSpace: int -> bool, isPunct: int -> bool) {
    /** Upper-casing never makes or destroys a newline token. */
    ghost predicate KeepsTokens() {
      && (forall c :: upper(c) == BACKSLASH <==> c == BACKSLASH)
      && (forall c :: upper(c) != LETTER_N)
    }

    predicate IsLetter(c: int) { lower(c) != upper(c) }
  }

  // ---------- Tokens and output ----------

  /** An expansion is read as characters and `\n` tokens. */
  datatype Item = Return | Char(c: int)

  predicate TokenAt(t: Text, i: nat) {
    i + 1 < |t| && t[i] == BACKSLASH && t[i + 1] == LETTER_N
  }

  function Items(t: Text): (r: seq<Item>)
    ensures |r| <= |t|
  {
    if t == [] then []
    else if TokenAt(t, 0) then [Return] + Items(t[2..])
    else [Char(t[0])] + Items(t[1..])
  }

  /** Returns written as CR LF. */
  function Render(items: seq<Item>): Text {
    if items == [] then []
    else (match items[0] case Return => [CARRIAGE_RETURN, LINE_FEED] case Char(c) => [c]) + Render(items[1..])
  }

  lemma {:induction false} RenderConcat(a: seq<Item>, b: seq<Item>)
    ensures Render(a + b) == Render(a) + Render(b)
  {
    if a == [] {
      assert a + b == b;
    } else {
      assert (a + b)[1..] == a[1..] + b;
      RenderConcat(a[1..], b);
    }
  }

  lemma {:induction false} RenderSnoc(items: seq<Item>, item: Item)
    ensures Render(items + [item]) ==
            Render(items) + match item case Return => [CARRIAGE_RETURN, LINE_FEED] case Char(c) => [c]
  {
    RenderConcat(items, [item]);
    assert [item][1..] == [];
  }

  lemma {:induction false} ItemsStep(t: Text, i: nat, read: seq<Item>)
    requires i < |t| && Items(t) == read + Items(t[i..])
    ensures TokenAt(t, i) ==> Items(t) == read + [Return] + Items(t[i + 2..])
    ensures !TokenAt(t, i) ==> Items(t) == read + [Char(t[i])] + Items(t[i + 1..])
  {
  }

  method ExpandEscapesForClipboard(expansion: Text) returns (out: Text)
    ensures out == Render(Items(expansion))
  {
    out := [];
    var i := 0;
    ghost var read: seq<Item> := [];
    while i < |expansion|
      invariant 0 <= i <= |expansion|
      invariant Items(expansion) == read + Items(expansion[i..]) && out == Render(read)
    {
      hide Items, Render;
      ItemsStep(expansion, i, read);
      if expansion[i] == BACKSLASH && i + 1 < |expansion| && expansion[i + 1] == LETTER_N {
        RenderSnoc(read, Return);
        out, read := out + [CARRIAGE_RETURN, LINE_FEED], read + [Return];
        i := i + 2;
      } else {
        RenderSnoc(read, Char(expansion[i]));
        out, read := out + [expansion[i]], read + [Char(expansion[i])];
        i := i + 1;
      }
    }
    assert read == Items(expansion);
  }

  /** One or two units for a character outside Unicode output. */
  datatype Encoded = Encoded(unit0: int, unit1: int, count: int)

  datatype CodeTable = Unicode | Legacy(convert: int -> Encoded)

  function Units(c: int, table: CodeTable): (r: Text)
    ensures r != []
  {
    match table
    case Unicode => [c]
    case Legacy(convert) => if convert(c).count == 2 then [convert(c).unit0, convert(c).unit1] else [convert(c).unit0]
  }

  function Chars(t: Text): (r: seq<Item>)
    ensures |r| == |t| && forall k :: 0 <= k < |t| ==> r[k] == Char(t[k])
  {
    seq(|t|, k requires 0 <= k < |t| => Char(t[k]))
  }

  /** The items with every character encoded for the code table. */
  function EncodeItems(items: seq<Item>, table: CodeTable): seq<Item> {
    if items == [] then []
    else EncodeItem(items[0], table) + EncodeItems(items[1..], table)
  }

  function EncodeItem(item: Item, table: CodeTable): seq<Item> {
    match item
    case Return => [Return]
    case Char(c) => Chars(Units(c, table))
  }

  lemma {:induction false} UnicodeKeepsItems(items: seq<Item>)
    ensures EncodeItems(items, Unicode) == items
  {
    if items != [] {
      UnicodeKeepsItems(items[1..]);
      assert items == [items[0]] + items[1..];
    }
  }

  datatype Segment = Segment(isReturn: bool, text: Text)

  function SegmentItems(s: Segment): seq<Item> { if s.isReturn then [Return] else Chars(s.text) }

  function Flatten(segments: seq<Segment>): seq<Item> {
    if segments == [] then [] else SegmentItems(segments[0]) + Flatten(segments[1..])
  }

  /** No empty run of text, no two runs side by side, no text in a return. */
  predicate Separated(segments: seq<Segment>) {
    && (forall k :: 0 <= k < |segments| ==> (segments[k].text == [] <==> segments[k].isReturn))
    && (forall k :: 0 <= k < |segments| - 1 ==> segments[k].isReturn || segments[k + 1].isReturn)
  }

  lemma {:induction false} FlattenConcat(a: seq<Segment>, b: seq<Segment>)
    ensures Flatten(a + b) == Flatten(a) + Flatten(b)
  {
    if a == [] {
      assert a + b == b;
    } else {
      assert (a + b)[1..] == a[1..] + b;
      FlattenConcat(a[1..], b);
    }
  }

  lemma {:induction false} FlattenOne(s: Segment)
    ensures Flatten([s]) == SegmentItems(s)
  {
  }

  lemma {:induction false} SeparatedTail(segments: seq<Segment>)
    requires segments != [] && Separated(segments)
    ensures Separated(segments[1..])
  {
  }

  /** What a separated list starts with is settled by its items. */
  lemma {:induction false} FirstSegment(segments: seq<Segment>)
    requires Separated(segments) && segments != []
    ensures var items := Flatten(segments);
            && items != [] && (items[0] == Return <==> segments[0].isReturn)
            && (!segments[0].isReturn ==>
                  && |segments[0].text| <= |items|
                  && (|segments[0].text| < |items| ==> items[|segments[0].text|] == Return)
                  && forall k :: 0 <= k < |segments[0].text| ==> items[k] == Char(segments[0].text[k]))
  {
  }

  /** The items decide the segments: there is one way to cut them into separated runs. */
  lemma {:induction false} SegmentsAreUnique(a: seq<Segment>, b: seq<Segment>)
    requires Separated(a) && Separated(b) && Flatten(a) == Flatten(b)
    ensures a == b
    decreases |a|
  {
    if a == [] || b == [] {
      if a != [] { FirstSegment(a); }
      if b != [] { FirstSegment(b); }
    } else {
      FirstSegment(a);
      FirstSegment(b);
      SameFirst(a, b);
      SeparatedTail(a);
      SeparatedTail(b);
      assert Flatten(a)[|SegmentItems(a[0])|..] == Flatten(a[1..]);
      assert Flatten(b)[|SegmentItems(b[0])|..] == Flatten(b[1..]);
      SegmentsAreUnique(a[1..], b[1..]);
      assert a == [a[0]] + a[1..] && b == [b[0]] + b[1..];
    }
  }

  lemma {:induction false} SameFirst(a: seq<Segment>, b: seq<Segment>)
    requires Separated(a) && Separated(b) && Flatten(a) == Flatten(b) && a != [] && b != []
    ensures a[0] == b[0]
  {
    FirstSegment(a);
    FirstSegment(b);
    if !a[0].isReturn {
      var s, t, items := a[0].text, b[0].text, Flatten(a);
      assert forall k :: 0 <= k < |s| ==> Char(s[k]) == items[k] == Char(t[k]);
    }
  }

  /** What the loop has flushed, plus the run it is collecting. */
  predicate Building(done: seq<Segment>, cur: Text, read: seq<Item>) {
    && Separated(done) && (done != [] ==> done[|done| - 1].isReturn)
    && Flatten(done) + Chars(cur) == read
  }

  function Flushed(done: seq<Segment>, cur: Text): seq<Segment> {
    if cur == [] then done else done + [Segment(false, cur)]
  }

  lemma {:induction false} FlattenSnoc(segments: seq<Segment>, s: Segment)
    ensures Flatten(segments + [s]) == Flatten(segments) + SegmentItems(s)
  {
    FlattenConcat(segments, [s]);
    FlattenOne(s);
  }

  lemma {:induction false} FlushKeeps(done: seq<Segment>, cur: Text, read: seq<Item>)
    requires Building(done, cur, read)
    ensures Separated(Flushed(done, cur)) && Flatten(Flushed(done, cur)) == read
  {
    FlattenSnoc(done, Segment(false, cur));
    assert cur == [] ==> Flatten(done) + Chars(cur) == Flatten(done);
    hide Flatten;
  }

  lemma {:induction false} ReturnKeeps(done: seq<Segment>, read: seq<Item>)
    requires Separated(done) && Flatten(done) == read
    ensures Building(done + [Segment(true, [])], [], read + [Return])
  {
    FlattenSnoc(done, Segment(true, []));
    assert read + [Return] + Chars([]) == read + [Return];
    hide Flatten;
  }

  lemma {:induction false} EncodeSnoc(items: seq<Item>, item: Item, table: CodeTable)
    ensures EncodeItems(items + [item], table) == EncodeItems(items, table) + EncodeItem(item, table)
  {
    hide EncodeItem;
    if items == [] {
      assert items + [item] == [item] && [item][1..] == [];
    } else {
      assert (items + [item])[1..] == items[1..] + [item];
      EncodeSnoc(items[1..], item, table);
      Regroup(EncodeItem(items[0], table), EncodeItems(items[1..], table), EncodeItem(item, table));
    }
  }

  lemma {:induction false} AppendRun(done: seq<Segment>, cur: Text, read: seq<Item>, more: Text)
    requires Building(done, cur, read)
    ensures Building(done, cur + more, read + Chars(more))
  {
  }

  lemma {:induction false} TokenBuilds(segments: seq<Segment>, cur: Text, read: seq<Item>, table: CodeTable)
    requires Building(segments, cur, EncodeItems(read, table))
    ensures Building((if cur != [] then segments + [Segment(false, cur)] else segments) + [Segment(true, [])], [],
            EncodeItems(read + [Return], table))
  {
    hide EncodeItems, Building, Separated, Flatten;
    FlushKeeps(segments, cur, EncodeItems(read, table));
    EncodeSnoc(read, Return, table);
    ReturnKeeps(Flushed(segments, cur), EncodeItems(read, table));
  }

  lemma {:induction false} CharacterBuilds(segments: seq<Segment>, cur: Text, read: seq<Item>, c: int, table: CodeTable)
    requires Building(segments, cur, EncodeItems(read, table))
    ensures Building(segments, cur + Units(c, table), EncodeItems(read + [Char(c)], table))
  {
    hide EncodeItems, Building, Separated, Flatten, Units, Chars;
    AppendRun(segments, cur, EncodeItems(read, table), Units(c, table));
    EncodeSnoc(read, Char(c), table);
  }

  method BuildSegments(expansion: Text, table: CodeTable) returns (segments: seq<Segment>)
    ensures Separated(segments) && Flatten(segments) == EncodeItems(Items(expansion), table)
  {
    segments := [];
    var cur: Text := [];
    var i := 0;
    ghost var read: seq<Item> := [];
    while i < |expansion|
      invariant 0 <= i <= |expansion| && Items(expansion) == read + Items(expansion[i..])
      invariant Building(segments, cur, EncodeItems(read, table))
    {
      hide Items, EncodeItems, Building, Separated, Flatten, Units;
      ItemsStep(expansion, i, read);
      if expansion[i] == BACKSLASH && i + 1 < |expansion| && expansion[i + 1] == LETTER_N {
        TokenBuilds(segments, cur, read, table);
        if cur != [] { segments := segments + [Segment(false, cur)]; }
        segments := segments + [Segment(true, [])];
        cur, read := [], read + [Return];
        i := i + 2;
      } else {
        var units := Units(expansion[i], table);
        CharacterBuilds(segments, cur, read, expansion[i], table);
        cur, read := cur + units, read + [Char(expansion[i])];
        i := i + 1;
      }
    }
    FlushKeeps(segments, cur, EncodeItems(read, table));
    assert read == Items(expansion);
    if cur != [] { segments := segments + [Segment(false, cur)]; }
  }

  function RenderSegments(segments: seq<Segment>): Text {
    if segments == [] then []
    else
      (if segments[0].isReturn then [CARRIAGE_RETURN, LINE_FEED] else segments[0].text) + RenderSegments(segments[1..])
  }

  lemma {:induction false} RenderChars(t: Text)
    ensures Render(Chars(t)) == t
  {
    if t != [] {
      assert Chars(t)[1..] == Chars(t[1..]);
      RenderChars(t[1..]);
    }
  }

  /** Writing segments out is writing their items out. */
  lemma {:induction false} RenderSegmentsIsRender(segments: seq<Segment>)
    ensures RenderSegments(segments) == Render(Flatten(segments))
  {
    if segments != [] {
      var s := segments[0];
      RenderSegmentsIsRender(segments[1..]);
      RenderConcat(SegmentItems(s), Flatten(segments[1..]));
      RenderChars(s.text);
      if s.isReturn { assert [Return][1..] == []; }
    }
  }

  /** The clipboard text is the rendering of the Unicode segments, whatever list a dispatcher built. */
  lemma {:induction false} OutputsAgree(expansion: Text, segments: seq<Segment>)
    requires Flatten(segments) == EncodeItems(Items(expansion), Unicode)
    ensures RenderSegments(segments) == Render(Items(expansion))
  {
    UnicodeKeepsItems(Items(expansion));
    RenderSegmentsIsRender(segments);
  }

  // ---------- Undo with backspaces ----------

  /** A unit that one backspace removes: no control, surrogate, combining or joining character. */
  predicate Undoable(c: int) {
    && 0x20 <= c <= 0xFFFF && !(0xD800 <= c <= 0xDFFF)
    && !(0x0300 <= c <= 0x036F) && !(0x1AB0 <= c <= 0x1AFF) && !(0x1DC0 <= c <= 0x1DFF)
    && !(0x200C <= c <= 0x200D) && !(0x20D0 <= c <= 0x20FF) && !(0xFE00 <= c <= 0xFE2F)
  }

  predicate HasToken(t: Text) { exists i :: 0 <= i < |t| && TokenAt(t, i) }

  lemma {:induction false} NoTokenNoReturn(t: Text)
    ensures !HasToken(t) <==> Items(t) == Chars(t)
    ensures HasToken(t) <==> Return in Items(t)
  {
    if t != [] {
      var rest := t[1..];
      NoTokenNoReturn(rest);
      assert forall i :: 1 <= i < |t| ==> TokenAt(t, i) == TokenAt(rest, i - 1);
      assert forall i :: 0 <= i < |rest| ==> TokenAt(rest, i) == TokenAt(t, i + 1);
      assert Chars(t) == [Char(t[0])] + Chars(rest);
      if TokenAt(t, 0) {
        assert Items(t)[0] == Return && Chars(t)[0] != Return;
      } else {
        assert Items(t)[1..] == Items(rest) && Chars(t)[1..] == Chars(rest);
        assert HasToken(t) <==> HasToken(rest);
      }
    }
  }

  /** True exactly when the expansion is typed as its own characters and each is one backspace. */
  method CanUndoWithBackspaces(expansion: Text) returns (r: bool)
    ensures r <==> Items(expansion) == Chars(expansion) && forall k :: 0 <= k < |expansion| ==> Undoable(expansion[k])
  {
    NoTokenNoReturn(expansion);
    hide Items;
    for i := 0 to |expansion|
      invariant forall k :: 0 <= k < i ==> Undoable(expansion[k]) && !TokenAt(expansion, k)
    {
      if !Undoable(expansion[i])
         || (expansion[i] == BACKSLASH && i + 1 < |expansion| && expansion[i + 1] == LETTER_N)
      {
        assert !Undoable(expansion[i]) || TokenAt(expansion, i);
        return false;
      }
    }
    r := true;
  }

  /** An expansion without tokens is dispatched as one run of text, itself. */
  lemma {:induction false} UndoableIsOneSegment(expansion: Text, segments: seq<Segment>)
    requires Items(expansion) == Chars(expansion)
    requires Separated(segments) && Flatten(segments) == EncodeItems(Items(expansion), Unicode)
    ensures segments == if expansion == [] then [] else [Segment(false, expansion)]
  {
    UnicodeKeepsItems(Items(expansion));
    var one := if expansion == [] then [] else [Segment(false, expansion)];
    FlattenOne(Segment(false, expansion));
    SegmentsAreUnique(segments, one);
  }

  // ---------- Case ----------

  datatype CapsStyle = NoCaps | FirstLetter | Words | All

  function Letters(t: Text, tables: CharTables): (r: Text)
    ensures forall k :: 0 <= k < |r| ==> tables.IsLetter(r[k])
  {
    if t == [] then []
    else if tables.IsLetter(t[0]) then [t[0]] + Letters(t[1..], tables)
    else Letters(t[1..], tables)
  }

  predicate AllUpper(t: Text, tables: CharTables) { forall k :: 0 <= k < |t| ==> t[k] == tables.upper(t[k]) }

  predicate InitialUpper(t: Text, tables: CharTables) {
    && t != [] && t[0] == tables.upper(t[0])
    && forall k :: 1 <= k < |t| ==> t[k] == tables.lower(t[k])
  }

  /** The style the typed letters ask for: two or more capitals, or one capital up front. */
  function StyleOf(typed: Text, enabled: bool, titleCase: bool, sentenceCapped: bool, tables: CharTables): CapsStyle {
    var letters := Letters(typed, tables);
    if enabled && |letters| > 1 && AllUpper(letters, tables) then All
    else if enabled && InitialUpper(letters, tables) then
      if titleCase && !sentenceCapped then Words else FirstLetter
    else if sentenceCapped then FirstLetter
    else NoCaps
  }

  lemma {:induction false} LettersSnoc(t: Text, c: int, tables: CharTables)
    ensures Letters(t + [c], tables) == if tables.IsLetter(c) then Letters(t, tables) + [c] else Letters(t, tables)
  {
    if t == [] {
      assert t + [c] == [c] && [c][1..] == [];
    } else {
      assert (t + [c])[1..] == t[1..] + [c];
      LettersSnoc(t[1..], c, tables);
    }
  }

  lemma {:induction false} UpperSnoc(s: Text, c: int, tables: CharTables)
    ensures AllUpper(s + [c], tables) == (AllUpper(s, tables) && c == tables.upper(c))
    ensures InitialUpper(s + [c], tables) ==
            if s == [] then c == tables.upper(c) else InitialUpper(s, tables) && c == tables.lower(c)
  {
    var t := s + [c];
    assert t[|s|] == c && forall k :: 0 <= k < |s| ==> t[k] == s[k];
    if InitialUpper(t, tables) && s != [] { assert forall k :: 0 <= k < |s| ==> s[k] == t[k]; }
  }

  method DetectCaps(typed: Text, enabled: bool, titleCase: bool, sentenceCapped: bool, tables: CharTables)
    returns (style: CapsStyle)
    ensures style == StyleOf(typed, enabled, titleCase, sentenceCapped, tables)
  {
    if enabled {
      var letters, allUpper, initialUpper := 0, true, false;
      for i := 0 to |typed|
        invariant letters == |Letters(typed[..i], tables)|
        invariant allUpper == AllUpper(Letters(typed[..i], tables), tables)
        invariant initialUpper == InitialUpper(Letters(typed[..i], tables), tables)
      {
        var c := typed[i];
        assert typed[..i + 1] == typed[..i] + [c];
        LettersSnoc(typed[..i], c, tables);
        UpperSnoc(Letters(typed[..i], tables), c, tables);
        if tables.lower(c) == tables.upper(c) { continue; }
        if letters == 0 {
          initialUpper := c == tables.upper(c);
        } else {
          initialUpper := initialUpper && c == tables.lower(c);
        }
        letters := letters + 1;
        allUpper := allUpper && c == tables.upper(c);
      }
      assert typed[..|typed|] == typed;
      if allUpper && letters > 1 { return All; }
      if initialUpper { return if titleCase && !sentenceCapped then Words else FirstLetter; }
    }
    style := if sentenceCapped then FirstLetter else NoCaps;
  }

  predicate BreaksWord(c: int, tables: CharTables) {
    tables.isSpace(c) || (tables.isPunct(c) && c != APOSTROPHE && c != RIGHT_QUOTE)
  }

  /** What capitalising leaves of a text, from a place where a word may start. */
  function Capped(t: Text, style: CapsStyle, wordStart: bool, tables: CharTables): (r: Text)
    ensures |r| == |t|
  {
    if t == [] || style == NoCaps then t
    else if TokenAt(t, 0) then t[..2] + Capped(t[2..], style, true, tables)
    else if style == All then [tables.upper(t[0])] + Capped(t[1..], style, wordStart, tables)
    else if BreaksWord(t[0], tables) then [t[0]] + Capped(t[1..], style, true, tables)
    else if !tables.IsLetter(t[0]) then [t[0]] + Capped(t[1..], style, wordStart, tables)
    else if style == FirstLetter then [tables.upper(t[0])] + t[1..]
    else [if wordStart then tables.upper(t[0]) else t[0]] + Capped(t[1..], style, false, tables)
  }

  /** How the walk goes on after a character that starts no token. */
  function NextWordStart(t: Text, style: CapsStyle, wordStart: bool, tables: CharTables): (CapsStyle, bool)
    requires t != []
  {
    if style == All then (style, wordStart)
    else if BreaksWord(t[0], tables) then (style, true)
    else if !tables.IsLetter(t[0]) then (style, wordStart)
    else if style == FirstLetter then (NoCaps, false)
    else (style, false)
  }

  lemma {:induction false} CappedFirst(t: Text, style: CapsStyle, wordStart: bool, tables: CharTables)
    requires t != [] && style != NoCaps && !TokenAt(t, 0)
    ensures var (s, w) := NextWordStart(t, style, wordStart, tables);
            && Capped(t, style, wordStart, tables)[1..] == Capped(t[1..], s, w, tables)
            && Capped(t, style, wordStart, tables)[0] in [t[0], tables.upper(t[0])]
  {
  }

  /** The first `i` characters are settled as `front`, and the rest goes on with `wordStart`. */
  predicate CappedSoFar(was: Text, i: nat, front: Text, style: CapsStyle, wordStart: bool, tables: CharTables)
    requires i <= |was|
  {
    |front| == i && Capped(was, style, true, tables) == front + Capped(was[i..], style, wordStart, tables)
  }

  lemma {:induction false} CappedToken(
      was: Text, i: nat, front: Text, style: CapsStyle, wordStart: bool, tables: CharTables)
    requires i < |was| && TokenAt(was, i) && style != NoCaps && CappedSoFar(was, i, front, style, wordStart, tables)
    ensures CappedSoFar(was, i + 2, front + was[i..i + 2], style, true, tables)
  {
    assert was[i..][2..] == was[i + 2..] && was[i..][..2] == was[i..i + 2];
    Regroup(front, was[i..i + 2], Capped(was[i + 2..], style, true, tables));
  }

  lemma {:induction false} CappedCharacter(
      was: Text, i: nat, front: Text, style: CapsStyle, wordStart: bool, tables: CharTables)
    requires i < |was| && !TokenAt(was, i) && style != NoCaps && CappedSoFar(was, i, front, style, wordStart, tables)
    ensures var c := Capped(was[i..], style, wordStart, tables)[0];
            var (s, w) := NextWordStart(was[i..], style, wordStart, tables);
            && (s == style ==> CappedSoFar(was, i + 1, front + [c], style, w, tables))
            && (s == NoCaps ==> Capped(was, style, true, tables) == front + [c] + was[i + 1..])
  {
    var rest := Capped(was[i..], style, wordStart, tables);
    CappedFirst(was[i..], style, wordStart, tables);
    assert was[i..][1..] == was[i + 1..];
    assert rest == [rest[0]] + rest[1..];
    Regroup(front, [rest[0]], rest[1..]);
  }

  /** The character an ordinary step writes. */
  function CappedChar(c: int, style: CapsStyle, wordStart: bool, tables: CharTables): int {
    if style == All then tables.upper(c)
    else if BreaksWord(c, tables) || !tables.IsLetter(c) then c
    else if style == FirstLetter || wordStart then tables.upper(c) else c
  }

  lemma {:induction false} CappedValue(t: Text, style: CapsStyle, wordStart: bool, tables: CharTables)
    requires t != [] && style != NoCaps && !TokenAt(t, 0)
    ensures Capped(t, style, wordStart, tables)[0] == CappedChar(t[0], style, wordStart, tables)
  {
  }

  /** One character that starts no token. */
  method CapCharacter(text: array<int>, i: nat, style: CapsStyle, wordStart: bool, tables: CharTables)
    returns (nextWordStart: bool, finished: bool)
    requires i < text.Length && style != NoCaps
    modifies text
    ensures text[..] == old(text[..])[i := CappedChar(old(text[i]), style, wordStart, tables)]
    ensures var (s, w) := NextWordStart([old(text[i])], style, wordStart, tables);
            finished == (s == NoCaps) && (!finished ==> s == style && nextWordStart == w)
  {
    nextWordStart, finished := wordStart, false;
    if style == All {
      text[i] := tables.upper(text[i]);
    } else if BreaksWord(text[i], tables) {
      nextWordStart := true;
    } else if tables.IsLetter(text[i]) {
      if style == FirstLetter || wordStart { text[i] := tables.upper(text[i]); }
      finished := style == FirstLetter;
      nextWordStart := false;
    }
  }

  /** `ApplyCaps`, in place. */
  method ApplyCaps(text: array<int>, style: CapsStyle, tables: CharTables)
    modifies text
    ensures text[..] == Capped(old(text[..]), style, true, tables)
  {
    if style == NoCaps { return; }
    ghost var was, now := text[..], text[..];
    var wordStart := true;
    var i := 0;
    while i < text.Length
      invariant 0 <= i <= text.Length && now == text[..] && now[i..] == was[i..]
      invariant CappedSoFar(was, i, now[..i], style, wordStart, tables)
    {
      hide *;
      SameAhead(now, was, i);
      if text[i] == BACKSLASH && i + 1 < text.Length && text[i + 1] == LETTER_N {
        TokenIs(was, i);
        CappedToken(was, i, now[..i], style, wordStart, tables);
        StepOver(now, was, i);
        i := i + 2;
        wordStart := true;
        continue;
      }
      TokenIs(was, i);
      CappedCharacter(was, i, now[..i], style, wordStart, tables);
      CappedValue(was[i..], style, wordStart, tables);
      NextLooksAtOne(was[i..], style, wordStart, tables);
      StepOne(now, was, i, CappedChar(was[i], style, wordStart, tables));
      var finished;
      wordStart, finished := CapCharacter(text, i, style, wordStart, tables);
      now := text[..];
      if finished { return; }
      i := i + 1;
    }
    assert now[..i] == now && was[i..] == [];
  }

  lemma {:induction false} SameAhead(now: Text, was: Text, i: nat)
    requires |now| == |was| && i < |was| && now[i..] == was[i..]
    ensures now[i] == was[i] && (i + 1 < |was| ==> now[i + 1] == was[i + 1])
    ensures was[i..][0] == was[i] && (TokenAt(was[i..], 0) <==> TokenAt(was, i))
  {
    assert now[i..][0] == now[i] && was[i..][0] == was[i];
    assert i + 1 < |was| ==> now[i..][1] == now[i + 1] && was[i..][1] == was[i + 1];
  }

  lemma {:induction false} TokenIs(t: Text, i: nat)
    ensures TokenAt(t, i) <==> i + 1 < |t| && t[i] == BACKSLASH && t[i + 1] == LETTER_N
  {
  }

  lemma {:induction false} StepOver(now: Text, was: Text, i: nat)
    requires |now| == |was| && i + 2 <= |was| && now[i..] == was[i..]
    ensures now[..i + 2] == now[..i] + was[i..i + 2] && now[i + 2..] == was[i + 2..]
  {
    assert now[i + 2..] == now[i..][2..] && was[i + 2..] == was[i..][2..];
    assert now[i..i + 2] == now[i..][..2] && was[i..i + 2] == was[i..][..2];
    assert now[..i + 2] == now[..i] + now[i..i + 2];
  }

  lemma {:induction false} StepOne(now: Text, was: Text, i: nat, c: int)
    requires |now| == |was| && i < |was| && now[i..] == was[i..]
    ensures now[i := c][..i + 1] == now[..i] + [c] && now[i := c][i + 1..] == was[i + 1..]
    ensures now[i := c] == now[..i] + [c] + was[i + 1..]
  {
    assert now[i + 1..] == now[i..][1..] && was[i + 1..] == was[i..][1..];
  }

  lemma {:induction false} NextLooksAtOne(t: Text, style: CapsStyle, wordStart: bool, tables: CharTables)
    requires t != []
    ensures NextWordStart(t, style, wordStart, tables) == NextWordStart([t[0]], style, wordStart, tables)
  {
  }

  /** An item and what capitalising may make of it. */
  predicate SameOrUpper(a: Item, b: Item, tables: CharTables) {
    b == a || (a.Char? && b == Char(tables.upper(a.c)))
  }

  predicate ItemsCapped(a: seq<Item>, b: seq<Item>, tables: CharTables) {
    |a| == |b| && forall k :: 0 <= k < |a| ==> SameOrUpper(a[k], b[k], tables)
  }

  lemma {:induction false} ItemsCappedCons(a: seq<Item>, b: seq<Item>, x: Item, y: Item, tables: CharTables)
    requires ItemsCapped(a, b, tables) && SameOrUpper(x, y, tables)
    ensures ItemsCapped([x] + a, [y] + b, tables)
  {
  }

  /** Capitalising changes no token and moves none: item for item, the text is the same or upper case. */
  lemma {:induction false} CappedKeepsTokens(t: Text, style: CapsStyle, wordStart: bool, tables: CharTables)
    requires tables.KeepsTokens()
    ensures ItemsCapped(Items(t), Items(Capped(t, style, wordStart, tables)), tables)
    decreases |t|
  {
    var r := Capped(t, style, wordStart, tables);
    if t == [] || style == NoCaps {
    } else if TokenAt(t, 0) {
      var tail := Capped(t[2..], style, true, tables);
      assert r[2..] == tail && TokenAt(r, 0);
      CappedKeepsTokens(t[2..], style, true, tables);
      ItemsCappedCons(Items(t[2..]), Items(tail), Return, Return, tables);
    } else {
      CappedFirst(t, style, wordStart, tables);
      var next := NextWordStart(t, style, wordStart, tables);
      var tail := Capped(t[1..], next.0, next.1, tables);
      CappedKeepsTokens(t[1..], next.0, next.1, tables);
      assert !TokenAt(r, 0) by { CappedHead(t[1..], next.0, next.1, tables); }
      ItemsCappedCons(Items(t[1..]), Items(tail), Char(t[0]), Char(r[0]), tables);
    }
  }

  /** A text that does not start with `n` is not made to by capitalising. */
  lemma {:induction false} CappedHead(t: Text, style: CapsStyle, wordStart: bool, tables: CharTables)
    requires tables.KeepsTokens()
    ensures t != [] && t[0] != LETTER_N ==> Capped(t, style, wordStart, tables)[0] != LETTER_N
  {
  }

  predicate SameReturns(a: seq<Item>, b: seq<Item>) {
    |a| == |b| && forall k :: 0 <= k < |a| ==> (a[k] == Return <==> b[k] == Return)
  }

  predicate SameShape(a: seq<Segment>, b: seq<Segment>) {
    |a| == |b| && forall k :: 0 <= k < |a| ==> a[k].isReturn == b[k].isReturn && |a[k].text| == |b[k].text|
  }

  lemma {:induction false} FirstShape(a: seq<Segment>, b: seq<Segment>)
    requires Separated(a) && Separated(b) && SameReturns(Flatten(a), Flatten(b)) && a != [] && b != []
    ensures a[0].isReturn == b[0].isReturn && |a[0].text| == |b[0].text|
    ensures SameReturns(Flatten(a[1..]), Flatten(b[1..]))
  {
    FirstSegment(a);
    FirstSegment(b);
    assert Flatten(a)[|SegmentItems(a[0])|..] == Flatten(a[1..]);
    assert Flatten(b)[|SegmentItems(b[0])|..] == Flatten(b[1..]);
  }

  /** Where the returns stand decides how the text is cut. */
  lemma {:induction false} ReturnsDecideShape(a: seq<Segment>, b: seq<Segment>)
    requires Separated(a) && Separated(b) && SameReturns(Flatten(a), Flatten(b))
    ensures SameShape(a, b)
    decreases |a|
  {
    if a == [] || b == [] {
      if a != [] { FirstSegment(a); }
      if b != [] { FirstSegment(b); }
    } else {
      FirstShape(a, b);
      SeparatedTail(a);
      SeparatedTail(b);
      ReturnsDecideShape(a[1..], b[1..]);
    }
  }

  // ---------- Code tables ----------

  /** A run of text with every character encoded. */
  function EncodeText(t: Text, table: CodeTable): (r: Text)
    ensures r == [] <==> t == []
  {
    if t == [] then [] else Units(t[0], table) + EncodeText(t[1..], table)
  }

  function EncodeSegments(segments: seq<Segment>, table: CodeTable): (r: seq<Segment>)
    ensures |r| == |segments|
    ensures forall k :: 0 <= k < |r| ==>
              r[k] == Segment(segments[k].isReturn, EncodeText(segments[k].text, table))
  {
    seq(|segments|, k requires 0 <= k < |segments| =>
                      Segment(segments[k].isReturn, EncodeText(segments[k].text, table)))
  }

  lemma {:induction false} EncodeConcat(a: seq<Item>, b: seq<Item>, table: CodeTable)
    ensures EncodeItems(a + b, table) == EncodeItems(a, table) + EncodeItems(b, table)
  {
    hide EncodeItem;
    if a == [] {
      assert a + b == b;
    } else {
      assert (a + b)[1..] == a[1..] + b;
      EncodeConcat(a[1..], b, table);
      Regroup(EncodeItem(a[0], table), EncodeItems(a[1..], table), EncodeItems(b, table));
    }
  }

  lemma {:induction false} EncodeChars(t: Text, table: CodeTable)
    ensures EncodeItems(Chars(t), table) == Chars(EncodeText(t, table))
  {
    if t != [] {
      hide Units;
      EncodeChars(t[1..], table);
      assert Chars(t)[1..] == Chars(t[1..]);
      assert Chars(Units(t[0], table)) + Chars(EncodeText(t[1..], table)) == Chars(EncodeText(t, table));
    }
  }

  lemma {:induction false} EncodeFlatten(segments: seq<Segment>, table: CodeTable)
    requires Separated(segments)
    ensures Separated(EncodeSegments(segments, table))
    ensures Flatten(EncodeSegments(segments, table)) == EncodeItems(Flatten(segments), table)
  {
    if segments != [] {
      hide EncodeItems, EncodeText, Chars;
      SeparatedTail(segments);
      EncodeFlatten(segments[1..], table);
      EncodeConcat(SegmentItems(segments[0]), Flatten(segments[1..]), table);
      EncodeSegment(segments[0], table);
      assert EncodeSegments(segments, table)[1..] == EncodeSegments(segments[1..], table);
    }
  }

  lemma {:induction false} EncodeSegment(s: Segment, table: CodeTable)
    ensures EncodeItems(SegmentItems(s), table) == SegmentItems(Segment(s.isReturn, EncodeText(s.text, table)))
  {
    if s.isReturn { assert [Return][1..] == []; } else { EncodeChars(s.text, table); }
  }

  /** Items cut at the returns. */
  function CutAtReturns(items: seq<Item>): (r: seq<Segment>)
    ensures r == [] <==> items == []
  {
    if items == [] then [] else
      var rest := CutAtReturns(items[1..]);
      match items[0]
      case Return => [Segment(true, [])] + rest
      case Char(c) =>
        if rest != [] && !rest[0].isReturn then [Segment(false, [c] + rest[0].text)] + rest[1..]
        else [Segment(false, [c])] + rest
  }

  lemma {:induction false} CutIsSeparated(items: seq<Item>)
    ensures Separated(CutAtReturns(items)) && Flatten(CutAtReturns(items)) == items
  {
    if items != [] {
      hide Separated, Chars;
      CutIsSeparated(items[1..]);
      CutAgain(items);
      var rest := CutAtReturns(items[1..]);
      assert items == [items[0]] + items[1..];
      if rest != [] && !rest[0].isReturn && items[0].Char? { LongerRun(items[0], rest); }
    }
  }

  lemma {:induction false} CutAgain(items: seq<Item>)
    requires items != [] && Separated(CutAtReturns(items[1..]))
    ensures Separated(CutAtReturns(items))
  {
  }

  lemma {:induction false} LongerRun(item: Item, rest: seq<Segment>)
    requires item.Char? && rest != [] && !rest[0].isReturn
    ensures Flatten([Segment(false, [item.c] + rest[0].text)] + rest[1..]) == [item] + Flatten(rest)
  {
    assert Chars([item.c] + rest[0].text) == [item] + Chars(rest[0].text);
    Regroup([item], Chars(rest[0].text), Flatten(rest[1..]));
  }

  /** A code table encodes the runs of text, and leaves the cuts where Unicode output has them. */
  lemma {:induction false} TablesCutAlike(items: seq<Item>, table: CodeTable, segments: seq<Segment>)
    requires Separated(segments) && Flatten(segments) == EncodeItems(items, table)
    ensures segments == EncodeSegments(CutAtReturns(items), table)
  {
    hide Separated, Flatten, EncodeItems, EncodeSegments;
    CutIsSeparated(items);
    EncodeFlatten(CutAtReturns(items), table);
    SegmentsAreUnique(segments, EncodeSegments(CutAtReturns(items), table));
  }

  /** Capitalising an expansion never changes the shape of what is dispatched: the returns stand between the same runs
      of text for every code table, and in Unicode output the runs keep their lengths. */
  lemma {:induction false} CappedKeepsShape(
      t: Text, style: CapsStyle, tables: CharTables, table: CodeTable, a: seq<Segment>, b: seq<Segment>)
    requires tables.KeepsTokens()
    requires Separated(a) && Flatten(a) == EncodeItems(Items(t), table)
    requires Separated(b) && Flatten(b) == EncodeItems(Items(Capped(t, style, true, tables)), table)
    ensures |a| == |b| && forall k :: 0 <= k < |a| ==> a[k].isReturn == b[k].isReturn
    ensures table.Unicode? ==> SameShape(a, b)
  {
    var was, now := Items(t), Items(Capped(t, style, true, tables));
    CappedKeepsTokens(t, style, true, tables);
    hide Capped, Items, EncodeItems, Flatten, Separated, CutAtReturns, EncodeText;
    CutIsSeparated(was);
    CutIsSeparated(now);
    ReturnsDecideShape(CutAtReturns(was), CutAtReturns(now));
    TablesCutAlike(was, table, a);
    TablesCutAlike(now, table, b);
    if table.Unicode? {
      UnicodeKeepsItems(was);
      UnicodeKeepsItems(now);
      ReturnsDecideShape(a, b);
    }
  }

  // ---------- The plan ----------

  type MacroTable = map<Text, Text>

  datatype PlanInputs = PlanInputs(
    raw: Text, composition: Text, encodedWidths: seq<nat>, table: MacroTable, crossCommit: bool,
    codeTable: CodeTable, autoCaps: bool, titleCase: bool, firstCharAutoCapped: bool,
    trigger: int, clipboardThreshold: nat)
  {
    /** A trigger that puts a character of its own in the text. */
    predicate Printable() { trigger > SPACE }
  }

  datatype MacroPlan = NoMatch | Matched(
    isPartOfMacro: bool, erased: nat, expansion: Text, useClipboard: bool, shortcut: Text)

  function LowerCopy(t: Text, tables: CharTables): (r: Text)
    ensures |r| == |t|
  {
    seq(|t|, k requires 0 <= k < |t| => tables.lower(t[k]))
  }

  /** The table key a candidate stands for: its exact spelling, else its lower-case one. */
  function Lookup(candidate: Text, table: MacroTable, tables: CharTables): (key: Option<Text>)
    ensures key.Some? ==> key.value in table && |key.value| == |candidate|
    ensures key.None? <==> candidate !in table && LowerCopy(candidate, tables) !in table
    ensures candidate in table ==> key == Some(candidate)
  {
    if candidate in table then Some(candidate)
    else if LowerCopy(candidate, tables) in table then Some(LowerCopy(candidate, tables))
    else None
  }

  /** A spelling the plan may match, where it comes from, and whether it takes in the trigger. */
  datatype Candidate = Candidate(text: Text, fromComposition: bool, withTrigger: bool)

  /** The candidates, first match wins: the raw buffer, the buffer without the trigger at its end,
      the composition with the trigger, the composition. */
  function Candidates(input: PlanInputs): seq<Candidate> {
    [Candidate(input.raw, false, input.Printable())]
    + (if input.Printable() && |input.raw| > 1 && input.raw[|input.raw| - 1] == input.trigger
       then [Candidate(input.raw[..|input.raw| - 1], false, false)] else [])
    + (if input.composition != [] && input.Printable()
       then [Candidate(input.composition + [input.trigger], true, true)] else [])
    + (if input.composition != [] then [Candidate(input.composition, true, false)] else [])
  }

  function FirstFound(cs: seq<Candidate>, table: MacroTable, tables: CharTables): (r: Option<Candidate>)
    ensures r.Some? ==> r.value in cs && Lookup(r.value.text, table, tables).Some?
    ensures r.None? ==> forall c :: c in cs ==> Lookup(c.text, table, tables).None?
  {
    if cs == [] then None
    else if Lookup(cs[0].text, table, tables).Some? then Some(cs[0])
    else FirstFound(cs[1..], table, tables)
  }

  function Sum(widths: seq<nat>): nat {
    if widths == [] then 0 else Sum(widths[..|widths| - 1]) + widths[|widths| - 1]
  }

  /** What a composition takes on the screen. */
  function CompositionWidth(input: PlanInputs): nat {
    if input.codeTable.Unicode? then |input.composition| else Sum(input.encodedWidths)
  }

  /** The raw buffer on the screen: a printable trigger has not reached it. */
  function RawWidth(input: PlanInputs): nat {
    if input.Printable() && |input.raw| > 0 then |input.raw| - 1 else |input.raw|
  }

  function Erased(input: PlanInputs, c: Candidate): nat {
    if c.fromComposition || (!input.crossCommit && input.composition != []) then CompositionWidth(input)
    else RawWidth(input)
  }

  predicate HasCapital(key: Text, tables: CharTables) {
    exists k :: 0 <= k < |key| && tables.lower(key[k]) != key[k]
  }

  /** A key with capitals is written as stored; any other takes the case of what was typed. */
  function Expansion(input: PlanInputs, key: Text, typed: Text, tables: CharTables): Text
    requires key in input.table
  {
    if HasCapital(key, tables) then input.table[key]
    else Capped(input.table[key],
                StyleOf(typed, input.autoCaps, input.titleCase, input.firstCharAutoCapped, tables), true, tables)
  }

  function PlanOf(input: PlanInputs, tables: CharTables): MacroPlan {
    match FirstFound(Candidates(input), input.table, tables)
    case None => NoMatch
    case Some(c) =>
      var expansion := Expansion(input, Lookup(c.text, input.table, tables).value, c.text, tables);
      Matched(c.withTrigger, Erased(input, c), expansion,
              input.codeTable.Unicode? && |expansion| > input.clipboardThreshold, c.text)
  }

  method HasUpper(key: Text, tables: CharTables) returns (r: bool)
    ensures r == HasCapital(key, tables)
  {
    for i := 0 to |key|
      invariant forall k :: 0 <= k < i ==> tables.lower(key[k]) == key[k]
    {
      if tables.lower(key[i]) != key[i] { return true; }
    }
    r := false;
  }

  method SumWidths(widths: seq<nat>) returns (total: nat)
    ensures total == Sum(widths)
  {
    total := 0;
    for i := 0 to |widths|
      invariant total == Sum(widths[..i])
    {
      assert widths[..i + 1][..i] == widths[..i];
      total := total + widths[i];
    }
    assert widths[..|widths|] == widths;
  }

  /** The stages of the search, each tried only while the ones before it failed. */
  method FindKey(input: PlanInputs, tables: CharTables) returns (key: Option<Text>, found: Candidate)
    ensures key.Some? <==> FirstFound(Candidates(input), input.table, tables).Some?
    ensures key.Some? ==> FirstFound(Candidates(input), input.table, tables) == Some(found)
    ensures key.Some? ==> key == Lookup(found.text, input.table, tables)
  {
    ghost var all := Candidates(input);
    var isPartOfMacro := false;
    var typed := input.raw;
    key := Lookup(input.raw, input.table, tables);
    if key.Some? && input.trigger > SPACE { isPartOfMacro := true; }
    if key.Some? { return key, Candidate(typed, false, isPartOfMacro); }
    ghost var rest := all[1..];
    assert FirstFound(all, input.table, tables) == FirstFound(rest, input.table, tables);
    if input.trigger > SPACE && |input.raw| > 1 && input.raw[|input.raw| - 1] == input.trigger {
      typed := typed[..|typed| - 1];
      key := Lookup(typed, input.table, tables);
      assert rest[0] == Candidate(typed, false, false);
      if key.Some? { return key, Candidate(typed, false, false); }
      rest := rest[1..];
      assert FirstFound(all, input.table, tables) == FirstFound(rest, input.table, tables);
    }
    if input.composition != [] {
      if input.trigger > SPACE {
        typed := input.composition + [input.trigger];
        key := Lookup(typed, input.table, tables);
        assert rest[0] == Candidate(typed, true, true);
        if key.Some? { return key, Candidate(typed, true, true); }
        rest := rest[1..];
        assert FirstFound(all, input.table, tables) == FirstFound(rest, input.table, tables);
      }
      assert rest == [Candidate(input.composition, true, false)];
      key := Lookup(input.composition, input.table, tables);
      typed := input.composition;
      assert rest[1..] == [];
    }
    found := Candidate(typed, true, false);
  }

  /** The erase count of a plan: what is on the screen, not what was typed. */
  method CountErased(input: PlanInputs, c: Candidate) returns (erased: nat)
    ensures erased == Erased(input, c)
  {
    if c.fromComposition || (!input.crossCommit && input.composition != []) {
      if !input.codeTable.Unicode? {
        erased := SumWidths(input.encodedWidths);
      } else {
        erased := |input.composition|;
      }
    } else {
      erased := |input.raw|;
      if input.trigger > SPACE && erased > 0 { erased := erased - 1; }
    }
  }

  /** The expansion of a plan: a key with capitals is taken as it is, any other follows the typed case. */
  method Capitalise(input: PlanInputs, key: Text, typed: Text, tables: CharTables) returns (expansion: Text)
    requires key in input.table
    ensures expansion == Expansion(input, key, typed, tables)
  {
    expansion := input.table[key];
    var verbatim := HasUpper(key, tables);
    if !verbatim {
      var style := DetectCaps(typed, input.autoCaps, input.titleCase, input.firstCharAutoCapped, tables);
      var buffer := new int[|expansion|](i requires 0 <= i < |expansion| => expansion[i]);
      assert buffer[..] == expansion;
      ApplyCaps(buffer, style, tables);
      expansion := buffer[..];
    }
  }

  /** `Plan`. */
  method Plan(input: PlanInputs, tables: CharTables) returns (plan: MacroPlan)
    ensures plan == PlanOf(input, tables)
  {
    var key, c := FindKey(input, tables);
    if key.None? { return NoMatch; }
    hide Candidates, FirstFound, Erased, Expansion;
    var erased := CountErased(input, c);
    var expansion := Capitalise(input, key.value, c.text, tables);
    plan := Matched(c.withTrigger, erased, expansion,
                    input.codeTable.Unicode? && |expansion| > input.clipboardThreshold, c.text);
  }

  /** The erased characters and the trigger, when it is eaten, make up the shortcut. */
  predicate Conserved(plan: MacroPlan)
    requires plan.Matched?
  {
    plan.erased + (if plan.isPartOfMacro then 1 else 0) == |plan.shortcut|
  }

  /** Whether a match came from the composition is settled before it: no raw spelling is in the table. */
  predicate RawMisses(input: PlanInputs, tables: CharTables) {
    && Lookup(input.raw, input.table, tables).None?
    && (input.Printable() && |input.raw| > 1 && input.raw[|input.raw| - 1] == input.trigger
        ==> Lookup(input.raw[..|input.raw| - 1], input.table, tables).None?)
  }

  lemma {:induction false} MissSkips(cs: seq<Candidate>, table: MacroTable, tables: CharTables)
    requires cs != [] && Lookup(cs[0].text, table, tables).None?
    ensures FirstFound(cs, table, tables) == FirstFound(cs[1..], table, tables)
  {
  }

  /** The found spelling comes from the composition exactly when the raw spellings miss. */
  lemma {:induction false} FoundInComposition(input: PlanInputs, tables: CharTables)
    requires FirstFound(Candidates(input), input.table, tables).Some?
    ensures var c := FirstFound(Candidates(input), input.table, tables).value;
            && (c.fromComposition <==> RawMisses(input, tables))
            && (c.fromComposition ==>
                  && input.composition != []
                  && c.text == input.composition + (if c.withTrigger then [input.trigger] else []))
            && (!c.fromComposition ==> |c.text| + (if c.withTrigger || !input.Printable() then 0 else 1) == |input.raw|)
            && (c.withTrigger ==> input.Printable())
  {
    var all := Candidates(input);
    if Lookup(input.raw, input.table, tables).None? {
      MissSkips(all, input.table, tables);
      if input.Printable() && |input.raw| > 1 && input.raw[|input.raw| - 1] == input.trigger {
        assert all[1] == Candidate(input.raw[..|input.raw| - 1], false, false);
        if Lookup(all[1].text, input.table, tables).None? { MissSkips(all[1..], input.table, tables); }
      }
    }
  }

  /** In Unicode output the erased characters and the eaten trigger equal the shortcut exactly when the match came
      through the composition, or what is on the screen is as long as the raw buffer before the trigger. */
  lemma {:induction false} EraseCountExact(input: PlanInputs, tables: CharTables)
    requires input.codeTable.Unicode? && PlanOf(input, tables).Matched?
    ensures Conserved(PlanOf(input, tables)) <==>
            || RawMisses(input, tables)
            || (if input.crossCommit || input.composition == [] then input.raw != [] || !input.Printable()
                else |input.composition| == |input.raw| - (if input.Printable() then 1 else 0))
  {
    FoundInComposition(input, tables);
    hide Candidates, FirstFound, RawMisses, Expansion;
  }

  /** With an empty buffer and an empty key, the plan eats a trigger that is no part of the shortcut. */
  lemma {:induction false} EmptyKeyEatsItsTrigger(tables: CharTables, expansion: Text)
    ensures var input := PlanInputs(
              [], [], [], map[[] := expansion], false, Unicode, false, false, false, '.' as int, 200);
            && PlanOf(input, tables).Matched? && PlanOf(input, tables).isPartOfMacro
            && PlanOf(input, tables).shortcut == [] && !Conserved(PlanOf(input, tables))
  {
    var input := PlanInputs([], [], [], map[[] := expansion], false, Unicode, false, false, false, '.' as int, 200);
    assert Candidates(input) == [Candidate([], false, true)];
    assert FirstFound(Candidates(input), input.table, tables) == Some(Candidate([], false, true));
  }
}
