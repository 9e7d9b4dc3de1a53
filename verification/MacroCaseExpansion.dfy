/** What a shortcut expands to, told from the letters that were typed and the characters that are stored. */
module MacroCaseExpansion {
  import opened Wrappers
  import opened MacroCase

  // ---------- What was typed ----------

  predicate LetterAt(typed: Text, k: nat, tables: CharTables)
    requires k < |typed|
  {
    tables.lower(typed[k]) != tables.upper(typed[k])
  }

  /** Two letters or more, all of them capital. */
  predicate AllCapital(typed: Text, tables: CharTables) {
    && (exists i, j :: 0 <= i < j < |typed| && LetterAt(typed, i, tables) && LetterAt(typed, j, tables))
    && forall k :: 0 <= k < |typed| && LetterAt(typed, k, tables) ==> typed[k] == tables.upper(typed[k])
  }

  /** The first letter is the `f`-th character; it is capital, and the letters behind it are small. */
  predicate CapitalAt(typed: Text, f: nat, tables: CharTables) {
    && f < |typed| && LetterAt(typed, f, tables) && typed[f] == tables.upper(typed[f])
    && (forall k :: 0 <= k < f ==> !LetterAt(typed, k, tables))
    && forall k :: f < k < |typed| && LetterAt(typed, k, tables) ==> typed[k] == tables.lower(typed[k])
  }

  predicate CapitalUpFront(typed: Text, tables: CharTables) {
    exists f :: 0 <= f < |typed| && CapitalAt(typed, f, tables)
  }

  predicate SomeLetter(typed: Text, tables: CharTables) {
    exists k :: 0 <= k < |typed| && LetterAt(typed, k, tables)
  }

  lemma {:induction false} LetterBehind(typed: Text, tables: CharTables)
    requires typed != []
    ensures forall k :: 0 < k < |typed| ==> LetterAt(typed, k, tables) == LetterAt(typed[1..], k - 1, tables)
    ensures forall k :: 0 <= k < |typed[1..]| ==> LetterAt(typed[1..], k, tables) == LetterAt(typed, k + 1, tables)
  {
  }

  lemma {:induction false} LettersAre(typed: Text, tables: CharTables)
    ensures Letters(typed, tables) != [] <==> SomeLetter(typed, tables)
    ensures AllUpper(Letters(typed, tables), tables)
            <==> forall k :: 0 <= k < |typed| && LetterAt(typed, k, tables) ==> typed[k] == tables.upper(typed[k])
    ensures (forall c :: c in Letters(typed, tables) ==> c == tables.lower(c))
            <==> forall k :: 0 <= k < |typed| && LetterAt(typed, k, tables) ==> typed[k] == tables.lower(typed[k])
  {
    forall c ensures c in Letters(typed, tables)
                     <==> exists k :: 0 <= k < |typed| && typed[k] == c && LetterAt(typed, k, tables)
    {
      LetterIsTyped(typed, c, tables);
    }
    var letters := Letters(typed, tables);
    if letters != [] { assert letters[0] in letters; }
    assert AllUpper(letters, tables) <==> forall c :: c in letters ==> c == tables.upper(c);
  }

  lemma {:induction false} LetterIsTyped(typed: Text, c: int, tables: CharTables)
    ensures c in Letters(typed, tables) <==> exists k :: 0 <= k < |typed| && typed[k] == c && LetterAt(typed, k, tables)
  {
    if typed != [] {
      LetterIsTyped(typed[1..], c, tables);
      LetterBehind(typed, tables);
      if c in Letters(typed[1..], tables) {
        var k :| 0 <= k < |typed[1..]| && typed[1..][k] == c && LetterAt(typed[1..], k, tables);
        assert typed[k + 1] == c && LetterAt(typed, k + 1, tables);
      }
      if k :| 0 < k < |typed| && typed[k] == c && LetterAt(typed, k, tables) {
        assert typed[1..][k - 1] == c && LetterAt(typed[1..], k - 1, tables);
      }
    }
  }

  lemma {:induction false} TwoLetters(typed: Text, tables: CharTables)
    ensures |Letters(typed, tables)| > 1
            <==> exists i, j :: 0 <= i < j < |typed| && LetterAt(typed, i, tables) && LetterAt(typed, j, tables)
  {
    if typed != [] {
      var tail := typed[1..];
      LetterBehind(typed, tables);
      LettersAre(tail, tables);
      TwoLetters(tail, tables);
      if i, j :| 0 <= i < j < |typed| && LetterAt(typed, i, tables) && LetterAt(typed, j, tables) {
        assert LetterAt(tail, j - 1, tables);
        if i > 0 { assert LetterAt(tail, i - 1, tables); }
      }
      if LetterAt(typed, 0, tables) {
        if k :| 0 <= k < |tail| && LetterAt(tail, k, tables) { assert LetterAt(typed, k + 1, tables); }
        assert |Letters(typed, tables)| > 1 <==> SomeLetter(tail, tables);
      } else if i, j :| 0 <= i < j < |tail| && LetterAt(tail, i, tables) && LetterAt(tail, j, tables) {
        assert LetterAt(typed, i + 1, tables) && LetterAt(typed, j + 1, tables);
      }
    }
  }

  lemma {:induction false} InitialIsUpFront(typed: Text, tables: CharTables)
    ensures InitialUpper(Letters(typed, tables), tables) <==> CapitalUpFront(typed, tables)
  {
    if typed != [] {
      LetterBehind(typed, tables);
      var tail := typed[1..];
      if LetterAt(typed, 0, tables) {
        LettersAre(tail, tables);
        var letters := Letters(typed, tables);
        assert letters[1..] == Letters(tail, tables);
        assert InitialUpper(letters, tables)
               <==> typed[0] == tables.upper(typed[0]) && forall c :: c in letters[1..] ==> c == tables.lower(c);
        assert CapitalUpFront(typed, tables) <==> CapitalAt(typed, 0, tables);
        assert CapitalAt(typed, 0, tables)
               <==> typed[0] == tables.upper(typed[0])
                    && forall k :: 0 <= k < |tail| && LetterAt(tail, k, tables) ==> tail[k] == tables.lower(tail[k]);
      } else {
        InitialIsUpFront(tail, tables);
        if f :| 0 <= f < |tail| && CapitalAt(tail, f, tables) { assert CapitalAt(typed, f + 1, tables); }
        if f :| 0 <= f < |typed| && CapitalAt(typed, f, tables) { assert f > 0 && CapitalAt(tail, f - 1, tables); }
      }
    }
  }

  // ---------- What is stored ----------

  /** The character belongs to a newline token, a backslash and an `n`. */
  predicate InToken(stored: Text, k: nat)
    requires k < |stored|
  {
    || (k + 1 < |stored| && stored[k] == 92 && stored[k + 1] == 110)
    || (k > 0 && stored[k - 1] == 92 && stored[k] == 110)
  }

  /** A word ends here: at a token, a blank, or a punctuation mark that is no apostrophe. */
  predicate BreakAt(stored: Text, k: nat, tables: CharTables)
    requires k < |stored|
  {
    || InToken(stored, k) || tables.isSpace(stored[k])
    || (tables.isPunct(stored[k]) && stored[k] != 39 && stored[k] != 0x2019)
  }

  predicate StoredLetter(stored: Text, k: nat, tables: CharTables)
    requires k < |stored|
  {
    !BreakAt(stored, k, tables) && LetterAt(stored, k, tables)
  }

  /** No letter stands before it. */
  predicate FirstOfAll(stored: Text, k: nat, tables: CharTables)
    requires k < |stored|
  {
    StoredLetter(stored, k, tables) && forall j :: 0 <= j < k ==> !StoredLetter(stored, j, tables)
  }

  /** Between every letter before it and it a word ends. */
  predicate FirstOfWord(stored: Text, k: nat, tables: CharTables)
    requires k < |stored|
  {
    && StoredLetter(stored, k, tables)
    && forall j :: 0 <= j < k && StoredLetter(stored, j, tables) ==> exists i :: j < i < k && BreakAt(stored, i, tables)
  }

  /** Whether a word may start at the k-th character, when it may at the first one if `wordStart`. */
  function WordStarts(stored: Text, k: nat, wordStart: bool, tables: CharTables): bool
    requires k <= |stored|
  {
    if k == 0 then wordStart
    else if BreakAt(stored, k - 1, tables) then true
    else if StoredLetter(stored, k - 1, tables) then false
    else WordStarts(stored, k - 1, wordStart, tables)
  }

  lemma {:induction false} WordStartsAfterBreak(stored: Text, k: nat, tables: CharTables)
    requires k <= |stored|
    ensures WordStarts(stored, k, true, tables)
            <==> forall j :: 0 <= j < k && StoredLetter(stored, j, tables) ==>
                   exists i :: j < i < k && BreakAt(stored, i, tables)
  {
    if k > 0 {
      WordStartsAfterBreak(stored, k - 1, tables);
      if BreakAt(stored, k - 1, tables) {
        forall j | 0 <= j < k && StoredLetter(stored, j, tables)
          ensures exists i :: j < i < k && BreakAt(stored, i, tables)
        {
          assert j < k - 1 && BreakAt(stored, k - 1, tables);
        }
      }
    }
  }

  /** Seen from further on, the text has the same tokens, breaks and letters. */
  lemma {:induction false} SeenFromBehind(stored: Text, n: nat, k: nat, tables: CharTables)
    requires n <= k < |stored| && (n > 0 ==> !(stored[n - 1] == 92 && stored[n] == 110))
    ensures InToken(stored[n..], k - n) == InToken(stored, k)
    ensures BreakAt(stored[n..], k - n, tables) == BreakAt(stored, k, tables)
    ensures StoredLetter(stored[n..], k - n, tables) == StoredLetter(stored, k, tables)
  {
  }

  lemma {:induction false} StartsFromBehind(stored: Text, n: nat, k: nat, wordStart: bool, tables: CharTables)
    requires n <= k <= |stored| && (0 < n < |stored| ==> !(stored[n - 1] == 92 && stored[n] == 110))
    ensures WordStarts(stored, k, wordStart, tables)
            == WordStarts(stored[n..], k - n, WordStarts(stored, n, wordStart, tables), tables)
    decreases k
  {
    if k > n {
      SeenFromBehind(stored, n, k - 1, tables);
      StartsFromBehind(stored, n, k - 1, wordStart, tables);
    }
  }

  /** Whether a style raises the k-th character. */
  predicate Raised(stored: Text, k: nat, style: CapsStyle, wordStart: bool, tables: CharTables)
    requires k < |stored|
  {
    match style
    case NoCaps => false
    case FirstLetter => FirstOfAll(stored, k, tables)
    case Words => StoredLetter(stored, k, tables) && WordStarts(stored, k, wordStart, tables)
    case All => !InToken(stored, k)
  }

  lemma {:induction false} FirstFromBehind(stored: Text, n: nat, k: nat, tables: CharTables)
    requires n <= k < |stored| && (n > 0 ==> !(stored[n - 1] == 92 && stored[n] == 110))
    requires forall j :: 0 <= j < n ==> !StoredLetter(stored, j, tables)
    ensures FirstOfAll(stored, k, tables) == FirstOfAll(stored[n..], k - n, tables)
  {
    forall j | n <= j <= k ensures StoredLetter(stored[n..], j - n, tables) == StoredLetter(stored, j, tables) {
      SeenFromBehind(stored, n, j, tables);
    }
    hide StoredLetter;
    if FirstOfAll(stored, k, tables) {
      forall j | 0 <= j < k - n ensures !StoredLetter(stored[n..], j, tables) {
        assert StoredLetter(stored[n..], j + n - n, tables) == StoredLetter(stored, j + n, tables);
      }
    }
    if FirstOfAll(stored[n..], k - n, tables) {
      forall j | 0 <= j < k ensures !StoredLetter(stored, j, tables) {
        if j >= n { assert !StoredLetter(stored[n..], j - n, tables); }
      }
    }
  }

  /** What a style raises behind the first `n` characters, if they are settled. */
  lemma {:induction false} RaisedFromBehind(
      stored: Text, n: nat, k: nat, style: CapsStyle, wordStart: bool, tables: CharTables)
    requires n <= k < |stored| && (n > 0 ==> !(stored[n - 1] == 92 && stored[n] == 110))
    requires style == FirstLetter ==> forall j :: 0 <= j < n ==> !StoredLetter(stored, j, tables)
    ensures Raised(stored, k, style, wordStart, tables)
            == Raised(stored[n..], k - n, style, WordStarts(stored, n, wordStart, tables), tables)
  {
    hide StoredLetter, FirstOfAll, WordStarts;
    SeenFromBehind(stored, n, k, tables);
    match style
    case FirstLetter => FirstFromBehind(stored, n, k, tables);
    case Words => StartsFromBehind(stored, n, k, wordStart, tables);
    case _ =>
  }

  /** Capitalising raises what its style raises, and nothing else. */
  lemma {:induction false} CappedRaises(t: Text, k: nat, style: CapsStyle, wordStart: bool, tables: CharTables)
    requires k < |t|
    ensures Capped(t, style, wordStart, tables)[k]
            == if Raised(t, k, style, wordStart, tables) then tables.upper(t[k]) else t[k]
    decreases |t|
  {
    if style != NoCaps {
      if TokenAt(t, 0) {
        if k >= 2 {
          CappedRaises(t[2..], k - 2, style, true, tables);
          RaisedFromBehind(t, 2, k, style, wordStart, tables);
        }
      } else if k > 0 && !(style == FirstLetter && StoredLetter(t, 0, tables)) {
        var next := NextWordStart(t, style, wordStart, tables);
        CappedFirst(t, style, wordStart, tables);
        CappedRaises(t[1..], k - 1, next.0, next.1, tables);
        RaisedFromBehind(t, 1, k, style, wordStart, tables);
      }
    }
  }

  // ---------- The plan ----------

  /** The key the shortcut stands for: its own spelling if the table has it, else its small letters. */
  predicate StandsFor(shortcut: Text, key: Text, table: MacroTable, tables: CharTables) {
    && key in table
    && if shortcut in table then key == shortcut
       else |key| == |shortcut| && forall k :: 0 <= k < |key| ==> key[k] == tables.lower(shortcut[k])
  }

  predicate AllSmall(key: Text, tables: CharTables) { forall k :: 0 <= k < |key| ==> tables.lower(key[k]) == key[k] }

  /** The settings and the typed letters decide which characters of the stored text become capital: all but newline
      tokens, the first letter of every word, the first letter of all, or none. */
  predicate Becomes(
      input: PlanInputs, typed: Text, stored: Text, k: nat, tables: CharTables)
    requires k < |stored|
  {
    if input.autoCaps && AllCapital(typed, tables) then !InToken(stored, k)
    else if input.autoCaps && CapitalUpFront(typed, tables) && input.titleCase && !input.firstCharAutoCapped then
      FirstOfWord(stored, k, tables)
    else if (input.autoCaps && CapitalUpFront(typed, tables)) || input.firstCharAutoCapped then
      FirstOfAll(stored, k, tables)
    else false
  }

  lemma {:induction false} StyleBecomes(input: PlanInputs, typed: Text, stored: Text, k: nat, tables: CharTables)
    requires k < |stored|
    ensures var style := StyleOf(typed, input.autoCaps, input.titleCase, input.firstCharAutoCapped, tables);
            Raised(stored, k, style, true, tables) == Becomes(input, typed, stored, k, tables)
  {
    LettersAre(typed, tables);
    TwoLetters(typed, tables);
    InitialIsUpFront(typed, tables);
    WordStartsAfterBreak(stored, k, tables);
    hide Letters, AllUpper, InitialUpper, CapitalUpFront, FirstOfAll, StoredLetter, InToken, BreakAt, LetterAt,
      WordStarts;
  }

  /** Every expansion of a key without capitals is the stored text with exactly those characters raised. */
  lemma {:induction false} SmallKeyExpands(input: PlanInputs, tables: CharTables, key: Text)
    requires PlanOf(input, tables).Matched?
    requires StandsFor(PlanOf(input, tables).shortcut, key, input.table, tables) && AllSmall(key, tables)
    ensures var stored, plan := input.table[key], PlanOf(input, tables);
            && |plan.expansion| == |stored|
            && forall k :: 0 <= k < |stored| ==>
                 plan.expansion[k] == if Becomes(input, plan.shortcut, stored, k, tables) then tables.upper(stored[k])
                                      else stored[k]
  {
    var plan := PlanOf(input, tables);
    var typed, stored := plan.shortcut, input.table[key];
    var style := StyleOf(typed, input.autoCaps, input.titleCase, input.firstCharAutoCapped, tables);
    KeyIsFound(input, tables, key);
    hide PlanOf, Becomes, StyleOf, Capped, Raised;
    forall k | 0 <= k < |stored|
      ensures plan.expansion[k] == if Becomes(input, typed, stored, k, tables) then tables.upper(stored[k])
                                   else stored[k]
    {
      CappedRaises(stored, k, style, true, tables);
      StyleBecomes(input, typed, stored, k, tables);
    }
  }

  lemma {:induction false} KeyIsFound(input: PlanInputs, tables: CharTables, key: Text)
    requires PlanOf(input, tables).Matched?
    requires StandsFor(PlanOf(input, tables).shortcut, key, input.table, tables)
    ensures var plan := PlanOf(input, tables);
            plan.expansion
            == if AllSmall(key, tables) then
                 Capped(input.table[key],
                        StyleOf(plan.shortcut, input.autoCaps, input.titleCase, input.firstCharAutoCapped, tables),
                        true, tables)
               else input.table[key]
  {
    hide Capped, StyleOf, Candidates, FirstFound, Erased;
    var c := FirstFound(Candidates(input), input.table, tables).value;
    assert Lookup(c.text, input.table, tables) == Some(key) by {
      if c.text !in input.table { assert LowerCopy(c.text, tables) == key; }
    }
  }

  /** A key that holds a capital is written as it is stored. */
  lemma {:induction false} OtherKeyExpands(input: PlanInputs, tables: CharTables, key: Text)
    requires PlanOf(input, tables).Matched?
    requires StandsFor(PlanOf(input, tables).shortcut, key, input.table, tables) && !AllSmall(key, tables)
    ensures PlanOf(input, tables).expansion == input.table[key]
  {
    KeyIsFound(input, tables, key);
  }

  /** So the expansion is as long as what is stored, and takes the clipboard for more characters than the threshold. */
  lemma {:induction false} ClipboardIsForLongTexts(input: PlanInputs, tables: CharTables, key: Text)
    requires PlanOf(input, tables).Matched?
    requires StandsFor(PlanOf(input, tables).shortcut, key, input.table, tables)
    ensures PlanOf(input, tables).useClipboard
            <==> input.codeTable == Unicode && |input.table[key]| > input.clipboardThreshold
  {
    KeyIsFound(input, tables, key);
    hide Capped, StyleOf, Candidates, FirstFound, Erased;
  }

  // ---------- Which shortcut it is, and what is erased ----------

  /** The table has the text, or its small letters, for a key. */
  predicate IsKey(t: Text, table: MacroTable, tables: CharTables) {
    t in table
      || exists key :: key in table && |key| == |t| && forall k :: 0 <= k < |t| ==> key[k] == tables.lower(t[k])
  }

  lemma {:induction false} KeyIsInTable(t: Text, table: MacroTable, tables: CharTables)
    ensures Lookup(t, table, tables).Some? <==> IsKey(t, table, tables)
  {
    if IsKey(t, table, tables) && t !in table {
      var key :| key in table && |key| == |t| && forall k :: 0 <= k < |t| ==> key[k] == tables.lower(t[k]);
      assert key == LowerCopy(t, tables);
    }
  }

  /** The buffer without a printable trigger at its end, if there is more to it. */
  predicate EndsWithTrigger(input: PlanInputs) {
    input.trigger > 32 && |input.raw| > 1 && input.raw[|input.raw| - 1] == input.trigger
  }

  /** Whether the shortcut is found in the buffer, with the trigger at its end or without. */
  predicate InBuffer(input: PlanInputs, tables: CharTables) {
    || IsKey(input.raw, input.table, tables)
    || (EndsWithTrigger(input) && IsKey(input.raw[..|input.raw| - 1], input.table, tables))
  }

  /** The buffer comes before the composition, and each with a printable trigger before it is tried without. */
  lemma {:induction false} WhichShortcut(input: PlanInputs, tables: CharTables)
    ensures var plan, printable := PlanOf(input, tables), input.trigger > 32;
            if IsKey(input.raw, input.table, tables) then
              plan.Matched? && plan.shortcut == input.raw && plan.isPartOfMacro == printable
            else if InBuffer(input, tables) then
              plan.Matched? && plan.shortcut == input.raw[..|input.raw| - 1] && !plan.isPartOfMacro
            else if input.composition != [] && printable
                    && IsKey(input.composition + [input.trigger], input.table, tables) then
              plan.Matched? && plan.shortcut == input.composition + [input.trigger] && plan.isPartOfMacro
            else if input.composition != [] && IsKey(input.composition, input.table, tables) then
              plan.Matched? && plan.shortcut == input.composition && !plan.isPartOfMacro
            else plan == NoMatch
  {
    FoundAmong(input, tables);
    KeyIsInTable(input.raw, input.table, tables);
    if EndsWithTrigger(input) { KeyIsInTable(input.raw[..|input.raw| - 1], input.table, tables); }
    KeyIsInTable(input.composition + [input.trigger], input.table, tables);
    KeyIsInTable(input.composition, input.table, tables);
    hide Lookup, IsKey, Erased, Expansion, FirstFound, Candidates;
  }

  /** The first of the four candidates that is in the table. */
  lemma {:induction false} FoundAmong(input: PlanInputs, tables: CharTables)
    ensures FirstFound(Candidates(input), input.table, tables)
            == if Lookup(input.raw, input.table, tables).Some? then
                 Some(Candidate(input.raw, false, input.trigger > 32))
               else if EndsWithTrigger(input) && Lookup(input.raw[..|input.raw| - 1], input.table, tables).Some? then
                 Some(Candidate(input.raw[..|input.raw| - 1], false, false))
               else if input.composition != [] && input.trigger > 32
                       && Lookup(input.composition + [input.trigger], input.table, tables).Some? then
                 Some(Candidate(input.composition + [input.trigger], true, true))
               else if input.composition != [] && Lookup(input.composition, input.table, tables).Some? then
                 Some(Candidate(input.composition, true, false))
               else None
  {
    hide Lookup, FirstFound, Candidates;
    var one, two, three, four := Stage1(input), Stage2(input), Stage3(input), Stage4(input);
    FourStages(input);
    FoundBehind(one, two + (three + four), input.table, tables);
    FoundBehind(two, three + four, input.table, tables);
    FoundBehind(three, four, input.table, tables);
    FoundBehind(four, [], input.table, tables);
    NoneFound(input.table, tables);
    assert four + [] == four;
  }

  function Stage1(input: PlanInputs): seq<Candidate> { [Candidate(input.raw, false, input.trigger > 32)] }

  function Stage2(input: PlanInputs): seq<Candidate> {
    if EndsWithTrigger(input) then [Candidate(input.raw[..|input.raw| - 1], false, false)] else []
  }

  function Stage3(input: PlanInputs): seq<Candidate> {
    if input.composition != [] && input.trigger > 32
    then [Candidate(input.composition + [input.trigger], true, true)] else []
  }

  function Stage4(input: PlanInputs): seq<Candidate> {
    if input.composition != [] then [Candidate(input.composition, true, false)] else []
  }

  lemma {:induction false} FourStages(input: PlanInputs)
    ensures Candidates(input) == Stage1(input) + (Stage2(input) + (Stage3(input) + Stage4(input)))
  {
    assert Candidates(input) == Stage1(input) + Stage2(input) + Stage3(input) + Stage4(input);
    hide Stage1, Stage2, Stage3, Stage4;
  }

  lemma {:induction false} NoneFound(table: MacroTable, tables: CharTables)
    ensures FirstFound([], table, tables) == None
  {
  }

  lemma {:induction false} FoundBehind(a: seq<Candidate>, b: seq<Candidate>, table: MacroTable, tables: CharTables)
    requires |a| <= 1
    ensures FirstFound(a + b, table, tables)
            == if a != [] && Lookup(a[0].text, table, tables).Some? then Some(a[0]) else FirstFound(b, table, tables)
  {
    hide Lookup;
    if a == [] { assert a + b == b; } else { assert (a + b)[1..] == b; }
  }

  function Total(widths: seq<nat>): nat {
    if widths == [] then 0 else widths[0] + Total(widths[1..])
  }

  lemma {:induction false} TotalIsSum(widths: seq<nat>)
    ensures Sum(widths) == Total(widths)
  {
    if widths != [] {
      var n := |widths| - 1;
      TotalIsSum(widths[..n]);
      TotalSnoc(widths[..n], widths[n]);
      assert widths == widths[..n] + [widths[n]];
    }
  }

  lemma {:induction false} TotalSnoc(widths: seq<nat>, w: nat)
    ensures Total(widths + [w]) == Total(widths) + w
  {
    if widths == [] {
      assert widths + [w] == [w] && [w][1..] == [];
    } else {
      assert (widths + [w])[1..] == widths[1..] + [w];
      TotalSnoc(widths[1..], w);
    }
  }

  /** Erased is what the composition takes on the screen, if the shortcut came through it or it is still open, and
      otherwise the buffer, which a printable trigger has not reached. */
  lemma {:induction false} WhatIsErased(input: PlanInputs, tables: CharTables)
    requires PlanOf(input, tables).Matched?
    ensures PlanOf(input, tables).erased
            == if !InBuffer(input, tables) || (!input.crossCommit && input.composition != []) then
                 (if input.codeTable == Unicode then |input.composition| else Total(input.encodedWidths))
               else if input.trigger > 32 && input.raw != [] then |input.raw| - 1
               else |input.raw|
  {
    FoundAmong(input, tables);
    TotalIsSum(input.encodedWidths);
    KeyIsInTable(input.raw, input.table, tables);
    if EndsWithTrigger(input) { KeyIsInTable(input.raw[..|input.raw| - 1], input.table, tables); }
    hide Lookup, IsKey, Expansion, FirstFound, Candidates, Sum, Total;
  }

  // ---------- What is put on the clipboard ----------

  /** The clipboard text is the expansion with CR LF in place of every newline token, character by character. */
  lemma {:induction false} OnTheClipboard(expansion: Text)
    ensures var out := Render(Items(expansion));
            && |out| == |expansion|
            && forall k :: 0 <= k < |out| ==>
                 out[k] == if !InToken(expansion, k) then expansion[k] else if expansion[k] == 92 then 13 else 10
  {
    if expansion != [] {
      var n := if TokenAt(expansion, 0) then 2 else 1;
      var tail := expansion[n..];
      OnTheClipboard(tail);
      assert Render(Items(expansion))[n..] == Render(Items(tail));
      forall k | n <= k < |expansion| ensures InToken(tail, k - n) == InToken(expansion, k) { }
    }
  }

  /** One backspace removes a unit that belongs to no token, is no control character and no surrogate, and lies in none
      of the blocks of combining and joining characters. */
  predicate OneBackspace(expansion: Text, k: nat)
    requires k < |expansion|
  {
    var c := expansion[k];
    && !InToken(expansion, k) && c >= 32 && c < 65536 && !(55296 <= c < 57344) && !(768 <= c < 880)
    && !(6832 <= c < 6912) && !(7616 <= c < 7680) && !(8204 <= c < 8206) && !(8400 <= c < 8448)
    && !(65024 <= c < 65072)
  }

  /** The undo by backspaces is offered when every unit is one. */
  lemma {:induction false} UndoIsOffered(expansion: Text)
    ensures Items(expansion) == Chars(expansion) && (forall k :: 0 <= k < |expansion| ==> Undoable(expansion[k]))
            <==> forall k :: 0 <= k < |expansion| ==> OneBackspace(expansion, k)
  {
    NoTokenNoReturn(expansion);
    hide Items;
    if !HasToken(expansion) && forall k :: 0 <= k < |expansion| ==> Undoable(expansion[k]) {
      forall k | 0 <= k < |expansion| ensures OneBackspace(expansion, k) {
        assert Undoable(expansion[k]) && !TokenAt(expansion, k);
        if k > 0 { assert !TokenAt(expansion, k - 1); }
      }
    }
    if forall k :: 0 <= k < |expansion| ==> OneBackspace(expansion, k) {
      forall k | 0 <= k < |expansion| ensures Undoable(expansion[k]) && !TokenAt(expansion, k) {
        assert OneBackspace(expansion, k);
      }
    }
  }

  // ---------- An instance ----------

  const ASCII := CharTables(
    c => if 97 <= c <= 122 then c - 32 else c, c => if 65 <= c <= 90 then c + 32 else c, c => c == 32, c => c == 46)

  /** `btw` stands for `by the way`. */
  const BTW: MacroTable := map[[98, 116, 119] := [98, 121, 32, 116, 104, 101, 32, 119, 97, 121]]

  function Typing(typed: Text, titleCase: bool): PlanInputs {
    PlanInputs(typed, [], [], BTW, false, Unicode, true, titleCase, false, 32, 200)
  }

  lemma {:induction false} Typed(typed: Text, titleCase: bool)
    requires |typed| == 3 && typed[0] in [98, 66] && typed[1] in [116, 84] && typed[2] in [119, 87]
    ensures var plan := PlanOf(Typing(typed, titleCase), ASCII);
            plan.Matched? && plan.shortcut == typed && StandsFor(typed, [98, 116, 119], BTW, ASCII)
    ensures AllSmall([98, 116, 119], ASCII)
  {
    var input := Typing(typed, titleCase);
    assert Candidates(input) == [Candidate(typed, false, false)];
    if typed !in BTW { assert LowerCopy(typed, ASCII) == [98, 116, 119]; }
  }

  /** They are tables the planner may be given. */
  lemma {:induction false} AsciiKeepsTokens()
    ensures ASCII.KeepsTokens()
  {
  }

  predicate ExpandsTo(typed: Text, titleCase: bool, expansion: Text) {
    var plan := PlanOf(Typing(typed, titleCase), ASCII);
    plan.Matched? && plan.expansion == expansion
  }

  /** Typed as `BTW` it is written in capitals; typed as `Btw` it gets one capital, or one for each word. */
  lemma {:induction false} ByTheWay()
    ensures ExpandsTo([66, 84, 87], false, [66, 89, 32, 84, 72, 69, 32, 87, 65, 89])
    ensures ExpandsTo([66, 116, 119], false, [66, 121, 32, 116, 104, 101, 32, 119, 97, 121])
    ensures ExpandsTo([66, 116, 119], true, [66, 121, 32, 84, 104, 101, 32, 87, 97, 121])
  {
    hide PlanOf, Becomes;
    Typed([66, 84, 87], false);
    Typed([66, 116, 119], false);
    Typed([66, 116, 119], true);
    var stored := BTW[[98, 116, 119]];
    forall k | 0 <= k < 10
      ensures Becomes(Typing([66, 84, 87], false), [66, 84, 87], stored, k, ASCII)
      ensures Becomes(Typing([66, 116, 119], false), [66, 116, 119], stored, k, ASCII) <==> k == 0
      ensures Becomes(Typing([66, 116, 119], true), [66, 116, 119], stored, k, ASCII) <==> k == 0 || k == 3 || k == 7
    {
      AllOfThem(k);
      SomeOfThem(false, k);
      SomeOfThem(true, k);
    }
    SmallKeyExpands(Typing([66, 84, 87], false), ASCII, [98, 116, 119]);
    SmallKeyExpands(Typing([66, 116, 119], false), ASCII, [98, 116, 119]);
    SmallKeyExpands(Typing([66, 116, 119], true), ASCII, [98, 116, 119]);
  }

  lemma {:induction false} AllOfThem(k: nat)
    requires k < 10
    ensures Becomes(Typing([66, 84, 87], false), [66, 84, 87], BTW[[98, 116, 119]], k, ASCII)
  {
    assert LetterAt([66, 84, 87], 0, ASCII) && LetterAt([66, 84, 87], 1, ASCII);
  }

  lemma {:induction false} SomeOfThem(titleCase: bool, k: nat)
    requires k < 10
    ensures Becomes(Typing([66, 116, 119], titleCase), [66, 116, 119], BTW[[98, 116, 119]], k, ASCII)
            <==> k == 0 || (titleCase && (k == 3 || k == 7))
  {
    var typed, stored := [66, 116, 119], BTW[[98, 116, 119]];
    assert CapitalAt(typed, 0, ASCII);
    assert !AllCapital(typed, ASCII) by { assert LetterAt(typed, 1, ASCII); }
    Breaks(0);
    Breaks(2);
    Breaks(6);
    Breaks(k);
    if k > 0 { Breaks(k - 1); }
    hide BreakAt, StoredLetter, AllCapital, LetterAt;
  }

  lemma {:induction false} Breaks(k: nat)
    requires k < 10
    ensures var stored := BTW[[98, 116, 119]];
            && (BreakAt(stored, k, ASCII) <==> k == 2 || k == 6)
            && (StoredLetter(stored, k, ASCII) <==> k != 2 && k != 6)
  {
  }
}
