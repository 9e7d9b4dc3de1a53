/** Which texts in front of the caret are shortcuts, told from the keys of the table. */
module MacroContextShortcuts {
  import opened Wrappers
  import opened MacroCase
  import opened MacroCaseExpansion
  import opened MacroContextMatch

  /** A suffix is a shortcut if and only if it begins the text, or stands behind a blank or a punctuation mark, and it,
      or it with a printable trigger behind it, is a key. */
  lemma {:induction false} ShortcutsAreKeys(q: Query, n: nat, tables: CharTables)
    requires 0 < n <= |q.text|
    ensures var suffix := q.text[|q.text| - n..];
            q.Fires(n, tables) <==>
            && (n < |q.text| ==> tables.isSpace(q.text[|q.text| - n - 1]) || tables.isPunct(q.text[|q.text| - n - 1]))
            && (IsKey(suffix, q.table, tables)
               || (q.trigger > 32 && IsKey(suffix + [q.trigger], q.table, tables)))
  {
    var suffix, input := q.text[|q.text| - n..], q.Inputs(n);
    KeyIsInTable(suffix, q.table, tables);
    if q.trigger > 32 {
      KeyIsInTable(suffix + [q.trigger], q.table, tables);
      assert input.raw == suffix + [q.trigger] && input.raw[..|input.raw| - 1] == suffix;
      assert Candidates(input) == [Candidate(input.raw, false, true), Candidate(suffix, false, false)];
      assert Candidates(input)[1..] == [Candidate(suffix, false, false)];
    } else {
      assert input.raw == suffix;
      assert Candidates(input) == [Candidate(suffix, false, false)];
    }
    hide Lookup, Candidates, IsKey, Erased, Expansion;
  }
}
