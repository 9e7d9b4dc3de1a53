/** The macro search over the document text in front of the caret. */
module MacroContextMatch {

  import opened Wrappers
  import opened MacroCase

  datatype ContextMatch = ContextMatch(plan: MacroPlan, shortcutLength: nat)

  /** What the search is asked; the table and the settings are those of the planner. */
  datatype Query = Query(text: Text, trigger: int, table: MacroTable, maxLength: nat,
                         autoCaps: bool, titleCase: bool, clipboardThreshold: nat)
  {
    function TriggerLength(): nat { if trigger > SPACE then 1 else 0 }

    /** How many characters back the search looks. */
    function Scan(): nat {
      if maxLength <= TriggerLength() then 0
      else if |text| <= maxLength - TriggerLength() then |text|
      else maxLength - TriggerLength()
    }

    /** The last `n` characters, with a printable trigger behind them. */
    function Candidate(n: nat): Text
      requires n <= |text|
    {
      text[|text| - n..] + if trigger > SPACE then [trigger] else []
    }

    function Inputs(n: nat): PlanInputs
      requires n <= |text|
    {
      PlanInputs(Candidate(n), [], [], table, true, Unicode, autoCaps, titleCase, false, trigger, clipboardThreshold)
    }

    /** The suffix does not start inside a word. */
    predicate AtBoundary(n: nat, tables: CharTables)
      requires n <= |text|
    {
      n == |text| || tables.isSpace(text[|text| - n - 1]) || tables.isPunct(text[|text| - n - 1])
    }

    /** The suffix of `n` characters is a shortcut. */
    predicate Fires(n: nat, tables: CharTables) {
      0 < n <= |text| && AtBoundary(n, tables) && PlanOf(Inputs(n), tables).Matched?
    }
  }

  /** `LongestMacroKeyLength`, over the entries in any order. */
  method LongestMacroKeyLength(keys: seq<Text>) returns (longest: nat)
    ensures forall k :: k in keys ==> |k| <= longest
    ensures keys != [] ==> exists k :: k in keys && |k| == longest
    ensures keys == [] ==> longest == 0
  {
    longest := 0;
    for i := 0 to |keys|
      invariant forall j :: 0 <= j < i ==> |keys[j]| <= longest
      invariant if i == 0 then longest == 0 else exists j :: 0 <= j < i && |keys[j]| == longest
    {
      if |keys[i]| >= longest {
        longest := |keys[i]|;
        assert |keys[i]| == longest;
      }
    }
  }

  /** The planner's own count over the candidate is already the number of document characters. */
  lemma {:induction false} PlannedErase(q: Query, n: nat, tables: CharTables)
    requires q.Fires(n, tables)
    ensures PlanOf(q.Inputs(n), tables).erased == n
  {
  }

  /** The longest suffix of the scanned text that is a shortcut, with its plan. */
  method MatchInPrecedingText(q: Query, tables: CharTables) returns (r: Option<ContextMatch>)
    ensures r.None? <==> forall n :: 0 < n <= q.Scan() ==> !q.Fires(n, tables)
    ensures r.Some? ==>
              && 0 < r.value.shortcutLength <= q.Scan() && q.Fires(r.value.shortcutLength, tables)
              && (forall n :: r.value.shortcutLength < n <= q.Scan() ==> !q.Fires(n, tables))
              && r.value.plan == PlanOf(q.Inputs(r.value.shortcutLength), tables)
              && r.value.plan.erased == r.value.shortcutLength
  {
    if |q.text| == 0 || |q.table| == 0 {
      return None;
    }
    var triggerLength := if q.trigger > SPACE then 1 else 0;
    if q.maxLength <= triggerLength { return None; }
    var n := if |q.text| <= q.maxLength - triggerLength then |q.text| else q.maxLength - triggerLength;
    while n > 0
      invariant 0 <= n <= q.Scan()
      invariant forall m :: n < m <= q.Scan() ==> !q.Fires(m, tables)
    {
      hide *;
      var plan := TryLength(q, n, tables);
      if plan.Some? { return Some(ContextMatch(plan.value, n)); }
      n := n - 1;
    }
    r := None;
  }

  /** One turn of the scan: the candidate of `n` characters, with its count set to what the document holds. */
  method TryLength(q: Query, n: nat, tables: CharTables) returns (r: Option<MacroPlan>)
    requires 0 < n <= |q.text|
    ensures r.Some? <==> q.Fires(n, tables)
    ensures r.Some? ==> r.value == PlanOf(q.Inputs(n), tables) && r.value.Matched? && r.value.erased == n
  {
    hide PlanOf;
    var start := |q.text| - n;
    if start > 0 && !tables.isSpace(q.text[start - 1]) && !tables.isPunct(q.text[start - 1]) { return None; }
    var candidate := q.text[start..];
    if q.trigger > SPACE { candidate := candidate + [q.trigger]; }
    assert candidate == q.Candidate(n);
    var plan := Plan(PlanInputs(candidate, [], [], q.table, true, Unicode, q.autoCaps, q.titleCase, false,
                                q.trigger, q.clipboardThreshold), tables);
    if !plan.Matched? { return None; }
    PlannedErase(q, n, tables);
    r := Some(plan.(erased := n));
  }

  predicate LongestKey(table: MacroTable, longest: nat) {
    forall k :: k in table ==> |k| <= longest
  }

  /** What lies beyond the scan: with the longest key's length as the bound, only a key of exactly that
      length, typed in full before a printable trigger that is not part of it. */
  lemma {:induction false} BeyondTheScan(q: Query, n: nat, tables: CharTables)
    requires LongestKey(q.table, q.maxLength) && n > q.Scan()
    ensures q.Fires(n, tables) <==>
            && n <= |q.text| && q.AtBoundary(n, tables) && q.trigger > SPACE && n == q.maxLength
            && 0 < n && Lookup(q.text[|q.text| - n..], q.table, tables).Some?
  {
    if 0 < n <= |q.text| {
      var input := q.Inputs(n);
      assert input.raw == q.Candidate(n);
      if q.trigger > SPACE {
        assert input.raw[..|input.raw| - 1] == q.text[|q.text| - n..];
        assert Candidates(input)
          == [Candidate(input.raw, false, true), Candidate(q.text[|q.text| - n..], false, false)];
        MissSkips(Candidates(input), q.table, tables);
        assert Candidates(input)[1..] == [Candidate(q.text[|q.text| - n..], false, false)];
      } else {
        assert Candidates(input) == [Candidate(input.raw, false, false)];
      }
    }
  }

  /** With a trigger that leaves no character, the search misses no shortcut at all. */
  lemma {:induction false} SilentTriggersMissNothing(q: Query, n: nat, tables: CharTables)
    requires LongestKey(q.table, q.maxLength) && q.trigger <= SPACE && q.Fires(n, tables)
    ensures n <= q.Scan()
  {
  }

  /** The longest key itself, followed by punctuation, is a shortcut the search does not reach. */
  lemma {:induction false} LongestKeyBeforePunctuation(tables: CharTables)
    ensures var btw := ['b' as int, 't' as int, 'w' as int];
            var q := Query(btw, '.' as int, map[btw := []], 3, false, false, 200);
            && LongestKey(q.table, q.maxLength) && q.Fires(3, tables) && q.Scan() == 2
  {
  }
}
