/** Sentence auto-capitalisation: the scan of the text before the caret, the keystroke automaton that
    stands in for it, and exactly when the two agree. */
module AutoCap {

  type Text = seq<int>

  const SPACE := ' ' as int
  const TAB := '\t' as int
  const NEWLINE := '\n' as int
  const RETURN := '\r' as int

  // ---------- The document scan ----------

  datatype CapTrigger = NoTrigger | DocStart | LineStart | SentenceEnd

  predicate IsBlank(c: int) { c == SPACE || c == TAB }

  predicate IsNewline(c: int) { c == NEWLINE || c == RETURN }

  predicate IsTerminator(c: int) { c == '.' as int || c == '?' as int || c == '!' as int }

  /** The text without the blanks at its end. */
  function Stripped(t: Text): (r: Text)
    ensures r <= t && (r == [] || !IsBlank(r[|r| - 1]))
    ensures forall k :: |r| <= k < |t| ==> IsBlank(t[k])
  {
    if t != [] && IsBlank(t[|t| - 1]) then Stripped(t[..|t| - 1]) else t
  }

  function Trigger(t: Text): CapTrigger {
    var s := Stripped(t);
    if s == [] then DocStart
    else if IsNewline(s[|s| - 1]) then LineStart
    else if IsTerminator(s[|s| - 1]) && |s| < |t| then SentenceEnd
    else NoTrigger
  }

  method ClassifyCapTrigger(buffer: Text) returns (r: CapTrigger)
    ensures r == Trigger(buffer)
  {
    if |buffer| == 0 { return DocStart; }
    var i := |buffer|;
    var skippedWhitespace := false;
    assert buffer[..i] == buffer;
    while i > 0
      invariant 0 <= i <= |buffer| && Stripped(buffer) == Stripped(buffer[..i]) && skippedWhitespace == (i < |buffer|)
      decreases i
    {
      hide Trigger;
      assert buffer[..i][..i - 1] == buffer[..i - 1];
      if !IsBlank(buffer[i - 1]) { break; }
      i := i - 1;
      skippedWhitespace := true;
    }
    if i == 0 { return DocStart; }
    var c := buffer[i - 1];
    if IsNewline(c) { return LineStart; }
    if IsTerminator(c) && skippedWhitespace { return SentenceEnd; }
    r := NoTrigger;
  }

  /** Spaces and tabs from the k-th character on. */
  predicate BlankFrom(t: Text, k: nat) { forall j :: k <= j < |t| ==> t[j] == 32 || t[j] == 9 }

  /** What the scan says of any document: its beginning if and only if there are only blanks; the beginning of a line
      if and only if a line break, and the end of a sentence if and only if a full stop, a question mark or an
      exclamation mark, stands last but for blanks, of which there must be one behind a sentence. */
  lemma {:induction false} ScanSays(t: Text)
    ensures Trigger(t) == DocStart <==> BlankFrom(t, 0)
    ensures Trigger(t) == LineStart
            <==> exists k :: 0 <= k < |t| && (t[k] == 10 || t[k] == 13) && BlankFrom(t, k + 1)
    ensures Trigger(t) == SentenceEnd
            <==> exists k :: 0 <= k < |t| - 1 && (t[k] == 46 || t[k] == 63 || t[k] == 33) && BlankFrom(t, k + 1)
  {
    var s := Stripped(t);
    if s != [] {
      var last := |s| - 1;
      assert t[last] == s[last] && BlankFrom(t, last + 1);
      forall k | 0 <= k < |t| && !IsBlank(t[k]) && BlankFrom(t, k + 1) ensures k == last { }
    }
    hide Stripped;
  }

  // ---------- The keystroke automaton ----------

  datatype AutoCapState = Idle | AfterPunct | ReadyToCapitalize

  const VK_TAB := 0x09
  const VK_RETURN := 0x0D
  const VK_SPACE := 0x20
  const VK_1 := 0x31
  const VK_A := 0x41
  const VK_Z := 0x5A
  /** The decimal key of the numeric keypad. */
  const VK_DECIMAL := 0x6E
  const VK_OEM_PERIOD := 0xBE
  const VK_OEM_SLASH := 0xBF

  /** A key press and the characters it puts in the document. */
  datatype Keystroke = Keystroke(vk: int, shift: bool, ctrl: bool, alt: bool, win: bool, typed: Text) {
    predicate IsShortcut() { ctrl || alt || win }

    predicate IsLetter() { VK_A <= vk <= VK_Z }

    /** The keys the automaton takes for sentence punctuation. */
    predicate IsPunctuationKey() {
      vk == VK_OEM_PERIOD || (vk == VK_OEM_SLASH && shift) || (vk == VK_1 && shift)
    }

    /** A shortcut types nothing; any other key types one character, blanks and line breaks only by their own keys. */
    predicate Types() {
      if IsShortcut() then typed == []
      else
        && |typed| == 1
        && (typed[0] == SPACE <==> vk == VK_SPACE) && (typed[0] == TAB <==> vk == VK_TAB)
        && (IsNewline(typed[0]) <==> vk == VK_RETURN)
    }

    /** The key keeps the automaton and the scan together, from a state they agree on. */
    predicate KeepsAgreement(state: AutoCapState)
      requires Types()
    {
      || IsShortcut()
      || ((IsPunctuationKey() <==> IsTerminator(typed[0])) && (vk == VK_TAB ==> state == Idle))
    }
  }

  /** `ComputeAutoCapStateTransition`. */
  function Transition(current: AutoCapState, k: Keystroke): AutoCapState {
    if k.ctrl || k.alt || k.win then current
    else if k.IsPunctuationKey() then AfterPunct
    else if k.vk == VK_SPACE && (current == AfterPunct || current == ReadyToCapitalize) then ReadyToCapitalize
    else if k.vk == VK_RETURN then ReadyToCapitalize
    else if VK_A <= k.vk <= VK_Z then (if current == ReadyToCapitalize then current else Idle)
    else Idle
  }

  /** The transition, after which a typed letter uses up a pending capital. */
  function Next(current: AutoCapState, k: Keystroke): AutoCapState {
    var state := Transition(current, k);
    if !k.IsShortcut() && k.IsLetter() && state == ReadyToCapitalize then Idle else state
  }

  /** The keys by their numbers: a shortcut changes nothing; a full stop, and a question mark or an exclamation mark
      with Shift, arms the automaton; Enter, or a space behind one of them, makes it ready; any other key clears it.
      The transition alone leaves a pending capital to a letter. */
  lemma {:induction false} KeySays(current: AutoCapState, k: Keystroke)
    ensures Next(current, k)
            == if k.ctrl || k.alt || k.win then current
               else if k.vk == 190 || (k.shift && (k.vk == 191 || k.vk == 49)) then AfterPunct
               else if k.vk == 13 || (k.vk == 32 && current != Idle) then ReadyToCapitalize
               else Idle
    ensures Transition(current, k)
            == if !k.ctrl && !k.alt && !k.win && 65 <= k.vk <= 90 && current == ReadyToCapitalize then current
               else Next(current, k)
  {
  }

  /** The state says about the keys what the scan says about the text. */
  predicate Agree(state: AutoCapState, t: Text) {
    && (state == ReadyToCapitalize <==> Trigger(t) == LineStart || Trigger(t) == SentenceEnd)
    && (state == AfterPunct <==> t != [] && IsTerminator(t[|t| - 1]))
  }

  /** Once the document holds a character that is no blank, a pending capital is any trigger at all. */
  lemma {:induction false} AgreeOnCapital(state: AutoCapState, t: Text)
    requires Agree(state, t) && exists k :: 0 <= k < |t| && !IsBlank(t[k])
    ensures state == ReadyToCapitalize <==> Trigger(t) != NoTrigger
  {
  }

  /** What the next state must be for the scan to agree after one more character. */
  lemma {:induction false} AgreeOneMore(state: AutoCapState, t: Text, c: int, next: AutoCapState)
    requires Agree(state, t)
    ensures Agree(next, t + [c]) <==>
            && (next == ReadyToCapitalize <==> if IsBlank(c) then state != Idle else IsNewline(c))
            && (next == AfterPunct <==> IsTerminator(c))
  {
  }

  /** One key keeps automaton and scan together exactly when it types what the automaton takes it for,
      and is not a tab behind pending punctuation. */
  lemma {:induction false} KeyAgrees(state: AutoCapState, t: Text, k: Keystroke)
    requires Agree(state, t) && k.Types()
    ensures Agree(Next(state, k), t + k.typed) <==> k.KeepsAgreement(state)
  {
    hide Agree, Trigger, Stripped;
    if k.IsShortcut() {
      assert t + k.typed == t;
    } else {
      assert k.typed == [k.typed[0]];
      AgreeOneMore(state, t, k.typed[0], Next(state, k));
    }
  }

  function StateAfter(state: AutoCapState, ks: seq<Keystroke>): AutoCapState {
    if ks == [] then state else Next(StateAfter(state, ks[..|ks| - 1]), ks[|ks| - 1])
  }

  function TextAfter(t: Text, ks: seq<Keystroke>): Text {
    if ks == [] then t else TextAfter(t, ks[..|ks| - 1]) + ks[|ks| - 1].typed
  }

  predicate AllType(ks: seq<Keystroke>) { forall i :: 0 <= i < |ks| ==> ks[i].Types() }

  /** Over a whole typing run, automaton and scan agree after every key exactly when every key keeps them together. */
  lemma {:induction false} RunAgrees(state: AutoCapState, t: Text, ks: seq<Keystroke>)
    requires Agree(state, t) && AllType(ks)
    ensures (forall n :: 0 <= n <= |ks| ==> Agree(StateAfter(state, ks[..n]), TextAfter(t, ks[..n])))
            <==> (forall i :: 0 <= i < |ks| ==> ks[i].KeepsAgreement(StateAfter(state, ks[..i])))
  {
    hide Agree, Keystroke.KeepsAgreement;
    if forall n :: 0 <= n <= |ks| ==> Agree(StateAfter(state, ks[..n]), TextAfter(t, ks[..n])) {
      forall i | 0 <= i < |ks| ensures ks[i].KeepsAgreement(StateAfter(state, ks[..i])) {
        RunStep(state, t, ks, i);
        KeyAgrees(StateAfter(state, ks[..i]), TextAfter(t, ks[..i]), ks[i]);
      }
    }
    if forall i :: 0 <= i < |ks| ==> ks[i].KeepsAgreement(StateAfter(state, ks[..i])) {
      forall n | 0 <= n <= |ks| ensures Agree(StateAfter(state, ks[..n]), TextAfter(t, ks[..n])) {
        KeptUpTo(state, t, ks, n);
      }
    }
  }

  lemma {:induction false} RunStep(state: AutoCapState, t: Text, ks: seq<Keystroke>, i: nat)
    requires i < |ks|
    ensures StateAfter(state, ks[..i + 1]) == Next(StateAfter(state, ks[..i]), ks[i])
    ensures TextAfter(t, ks[..i + 1]) == TextAfter(t, ks[..i]) + ks[i].typed
  {
    assert ks[..i + 1][..i] == ks[..i];
  }

  lemma {:induction false} KeptUpTo(state: AutoCapState, t: Text, ks: seq<Keystroke>, n: nat)
    requires Agree(state, t) && AllType(ks) && n <= |ks|
    requires forall i :: 0 <= i < |ks| ==> ks[i].KeepsAgreement(StateAfter(state, ks[..i]))
    ensures Agree(StateAfter(state, ks[..n]), TextAfter(t, ks[..n]))
  {
    hide Agree, Keystroke.KeepsAgreement;
    if n > 0 {
      KeptUpTo(state, t, ks, n - 1);
      RunStep(state, t, ks, n - 1);
      KeyAgrees(StateAfter(state, ks[..n - 1]), TextAfter(t, ks[..n - 1]), ks[n - 1]);
    }
  }

  /** A United States keyboard: what its punctuation keys type, with the decimal key of the numeric keypad; no other
      key types a sentence terminator. */
  predicate UsLayout(k: Keystroke)
    requires k.Types() && !k.IsShortcut()
  {
    && (k.vk == VK_OEM_PERIOD ==> k.typed[0] == if k.shift then '>' as int else '.' as int)
    && (k.vk == VK_OEM_SLASH && k.shift ==> k.typed[0] == '?' as int)
    && (k.vk == VK_1 && k.shift ==> k.typed[0] == '!' as int)
    && (k.vk == VK_DECIMAL ==> k.typed[0] == '.' as int)
    && (!k.IsPunctuationKey() && k.vk != VK_DECIMAL ==> !IsTerminator(k.typed[0]))
  }

  /** The keys of that keyboard that part automaton and text: Shift and period, the decimal key of the keypad, and a
      tab behind pending punctuation. */
  predicate Parts(k: Keystroke, state: AutoCapState) {
    && !k.IsShortcut()
    && ((k.vk == VK_OEM_PERIOD && k.shift) || k.vk == VK_DECIMAL || (k.vk == VK_TAB && state != Idle))
  }

  /** Typing on that keyboard, the automaton follows the text after every key exactly when no key parts them. */
  lemma {:induction false} UsTypingAgrees(state: AutoCapState, t: Text, ks: seq<Keystroke>)
    requires Agree(state, t) && AllType(ks)
    requires forall i :: 0 <= i < |ks| && !ks[i].IsShortcut() ==> UsLayout(ks[i])
    ensures (forall n :: 0 <= n <= |ks| ==> Agree(StateAfter(state, ks[..n]), TextAfter(t, ks[..n])))
            <==> (forall i :: 0 <= i < |ks| ==> !Parts(ks[i], StateAfter(state, ks[..i])))
  {
    RunAgrees(state, t, ks);
    hide Agree;
    forall i | 0 <= i < |ks|
      ensures ks[i].KeepsAgreement(StateAfter(state, ks[..i])) <==> !Parts(ks[i], StateAfter(state, ks[..i]))
    {
    }
  }

  /** A tab after a full stop disarms the automaton, while the text still ends a sentence. */
  lemma {:induction false} TabForgets()
    ensures var t := ['a' as int, '.' as int];
            var tab := Keystroke(VK_TAB, false, false, false, false, [TAB]);
            && Agree(AfterPunct, t) && tab.Types()
            && Next(AfterPunct, tab) == Idle && Trigger(t + [TAB]) == SentenceEnd
  {
  }

  /** Shift and period types no full stop, but the automaton takes it for one. */
  lemma {:induction false} ShiftPeriodIsTakenForAStop(t: Text, state: AutoCapState)
    requires Agree(state, t)
    ensures var key := Keystroke(VK_OEM_PERIOD, true, false, false, false, ['>' as int]);
            key.Types() && UsLayout(key) && Next(state, key) == AfterPunct && !Agree(AfterPunct, t + key.typed)
  {
  }

  /** The decimal key of the numeric keypad types a full stop, and the automaton takes it for any other key. */
  lemma {:induction false} KeypadStopIsMissed(t: Text, state: AutoCapState)
    requires Agree(state, t)
    ensures var key := Keystroke(VK_DECIMAL, false, false, false, false, ['.' as int]);
            && key.Types() && UsLayout(key) && Next(state, key) == Idle && !Agree(Idle, t + key.typed)
            && Trigger(t + key.typed + [SPACE]) == SentenceEnd
  {
    assert (t + ['.' as int] + [SPACE])[..|t| + 1] == t + ['.' as int];
  }
}
