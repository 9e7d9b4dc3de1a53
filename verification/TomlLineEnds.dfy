/** A backslash at the end of a line of a multi-line basic string, told from the text alone. */
module TomlLineEnds {
  import opened Wrappers
  import opened TomlChars
  import opened TomlStrings

  predicate StartsBreak(t: Text) { t != [] && (t[0] == 10 || (|t| > 1 && t[0] == 13 && t[1] == 10)) }

  predicate StartsBlank(t: Text) { t != [] && (t[0] == 9 || t[0] == 32) }

  /** Spaces, tabs, line feeds, and carriage returns with a line feed behind them. */
  predicate IsRun(w: Text) {
    w == [] || ((w[0] == 9 || w[0] == 10 || w[0] == 32) && IsRun(w[1..]))
    || (|w| > 1 && w[0] == 13 && w[1] == 10 && IsRun(w[2..]))
  }

  /** Blanks beyond ASCII, which are no blanks to TOML. */
  predicate StartsOtherBlank(t: Text) {
    && t != []
    && (|| t[0] == 0xA0 || t[0] == 0x1680 || t[0] == 0x180E || 0x2000 <= t[0] <= 0x200B
        || t[0] == 0x202F || 0x205F <= t[0] <= 0x2060 || t[0] == 0x3000 || t[0] == 0xFEFF)
  }

  /** Neither a quote nor a backslash. */
  predicate IsTame(a: Text) { forall k :: 0 <= k < |a| ==> a[k] != 34 && a[k] != 92 }

  const OPENING: Text := [34, 34, 34]

  /** What such a text is read as: itself, with every CR LF as one line feed. No other control characters but tabs may
      stand in it, and no surrogates. */
  function Plain(a: Text): Option<Text> {
    if a == [] then Some([])
    else if |a| > 1 && a[0] == 13 && a[1] == 10 then Before(10, Plain(a[2..]))
    else if (a[0] < 32 && a[0] != 9 && a[0] != 10) || a[0] == 127 || 0xD800 <= a[0] <= 0xDFFF then None
    else Before(a[0], Plain(a[1..]))
  }

  function Before(c: int, r: Option<Text>): Option<Text> {
    match r
    case None => None
    case Some(v) => Some([c] + v)
  }

  /** The text without the line break at its front. */
  function Dropped(a: Text): Text {
    if a != [] && a[0] == 10 then a[1..] else if StartsBreak(a) then a[2..] else a
  }

  /** The body of a string read from the front: a tame text, and what follows. */
  function Joined(front: Option<Text>, behind: Option<Parsed>): Option<Parsed> {
    match front
    case None => None
    case Some(v) => Prepend(v, behind)
  }

  lemma {:induction false} JoinedBefore(c: int, front: Option<Text>, behind: Option<Parsed>)
    ensures Prepend([c], Joined(front, behind)) == Joined(Before(c, front), behind)
  {
    if front.Some? && behind.Some? {
      assert [c] + (front.value + behind.value.value) == [c] + front.value + behind.value.value;
    }
  }

  lemma {:induction false} NothingPrepended(r: Option<Parsed>)
    ensures Prepend([], r) == r
  {
    if r.Some? { assert [] + r.value.value == r.value.value; }
  }

  lemma {:induction false} TameIsRead(a: Text, s: Text)
    requires IsTame(a) && (s == [] || s[0] != 10)
    ensures BasicBody(a + s, true, false) == Joined(Plain(a), BasicBody(s, true, false))
    decreases |a|
  {
    if a == [] {
      assert a + s == s;
      NothingPrepended(BasicBody(s, true, false));
    } else if |a| > 1 && a[0] == 13 && a[1] == 10 {
      assert (a + s)[2..] == a[2..] + s;
      TameIsRead(a[2..], s);
      JoinedBefore(10, Plain(a[2..]), BasicBody(s, true, false));
    } else {
      assert (a + s)[1..] == a[1..] + s;
      TameIsRead(a[1..], s);
      JoinedBefore(a[0], Plain(a[1..]), BasicBody(s, true, false));
    }
  }

  /** The run is dropped while blanks are skipped. */
  lemma {:induction false} RunIsSkipped(w: Text, t: Text)
    requires IsRun(w)
    ensures BasicBody(w + t, true, true) == BasicBody(t, true, true)
    decreases |w|
  {
    if w == [] {
      assert w + t == t;
    } else if w[0] == 13 {
      assert (w + t)[2..] == w[2..] + t;
      RunIsSkipped(w[2..], t);
      NothingPrepended(BasicBody(t, true, true));
    } else {
      assert (w + t)[1..] == w[1..] + t;
      RunIsSkipped(w[1..], t);
      NothingPrepended(BasicBody(t, true, true));
    }
  }


  /** Behind the backslash the run is dropped if it holds a line break. */
  lemma {:induction false} RunBehindBackslash(w: Text, t: Text)
    requires IsRun(w) && 10 in w
    ensures w != [] && AfterBackslash(w + t, true) == BasicBody(t, true, true)
    ensures var start := LeadingWhitespace(w + t);
            start.Some? && LineBreak(start.value).Broken?
            && BasicBody(LineBreak(start.value).rest, true, true) == BasicBody(t, true, true)
    decreases |w|
  {
    if w[0] == 13 {
      assert (w + t)[2..] == w[2..] + t;
      RunIsSkipped(w[2..], t);
    } else {
      assert (w + t)[1..] == w[1..] + t;
      if w[0] == 10 { RunIsSkipped(w[1..], t); } else { RunBehindBackslash(w[1..], t); }
    }
  }

  /** Skipping blanks or not, the same texts are read, with the same rest; the value is no longer for skipping. */
  lemma {:induction false} SkippingOnlyDrops(t: Text)
    ensures BasicBody(t, true, true).Some? <==> BasicBody(t, true, false).Some?
    ensures BasicBody(t, true, true).Some? ==>
              |BasicBody(t, true, true).value.value| <= |BasicBody(t, true, false).value.value|
    decreases |t|
  {
    if t != [] && t[0] != QUOTE && t[0] != BACKSLASH {
      if IsAsciiVerticalWhitespace(t[0]) {
        if LineBreak(t).Broken? { SkippingOnlyDrops(LineBreak(t).rest); }
      } else if IsHorizontalWhitespace(t[0]) {
        SkippingOnlyDrops(t[1..]);
      }
    }
  }

  /** What follows the run is read as if the run were not there, but for blanks beyond ASCII, which are dropped too. */
  lemma {:induction false} SkippingMatters(t: Text)
    requires !StartsBlank(t) && !StartsBreak(t)
    ensures BasicBody(t, true, true) == BasicBody(t, true, false)
            <==> !StartsOtherBlank(t) || BasicBody(t, true, false) == None
  {
    if StartsOtherBlank(t) {
      SkippingOnlyDrops(t[1..]);
      SkippingOnlyDrops(t);
    }
  }

  /** A multi-line basic string is its tame front, without a line break right behind the delimiter, and what follows. */
  lemma {:induction false} FrontIsRead(a: Text, s: Text)
    requires IsTame(a) && !StartsBreak(s)
    ensures ParseString(OPENING + a + s) == Joined(Plain(Dropped(a)), BasicBody(s, true, false))
  {
    assert (OPENING + a + s)[3..] == a + s;
    if StartsBreak(a) {
      assert LineBreak(a + s) == Broken(Dropped(a) + s);
      TameIsRead(Dropped(a), s);
    } else if LineBreak(a + s).NoBreak? {
      TameIsRead(a, s);
    } else {
      BadFront(a, s);
    }
  }

  lemma {:induction false} BadFront(a: Text, s: Text)
    requires IsTame(a) && !StartsBreak(s) && !StartsBreak(a) && !LineBreak(a + s).NoBreak?
    ensures LineBreak(a + s).BadBreak?
    ensures Joined(Plain(a), BasicBody(s, true, false)) == None
  {
    if a == [] { assert a + s == s; }
  }

  lemma {:induction false} LineEndIsRead(a: Text, w: Text, t: Text)
    requires IsTame(a) && IsRun(w) && 10 in w
    ensures ParseString(OPENING + a + [92] + w + t) == Joined(Plain(Dropped(a)), BasicBody(t, true, true))
  {
    var s := [92] + w + t;
    assert OPENING + a + [92] + w + t == OPENING + a + s && s[1..] == w + t;
    FrontIsRead(a, s);
    RunBehindBackslash(w, t);
  }

  /** A backslash at the end of a line, the line break and the blanks and line breaks around it are as good as not
      there, unless a blank beyond ASCII follows, which is dropped with them: then only strings that are refused
      anyway are read alike. */
  lemma {:induction false} LineEndIsDropped(a: Text, w: Text, t: Text)
    requires IsTame(a) && IsRun(w) && 10 in w
    requires !StartsBlank(t) && !StartsBreak(t)
    ensures ParseString(OPENING + a + [92] + w + t) == ParseString(OPENING + a + t)
            <==> !StartsOtherBlank(t) || ParseString(OPENING + a + t) == None
  {
    LineEndIsRead(a, w, t);
    FrontIsRead(a, t);
    SkippingMatters(t);
    SkippingOnlyDrops(t);
    SamePrefix(Plain(Dropped(a)), BasicBody(t, true, true), BasicBody(t, true, false));
  }

  lemma {:induction false} SamePrefix(front: Option<Text>, r: Option<Parsed>, q: Option<Parsed>)
    ensures Joined(front, r) == Joined(front, q) <==> front == None || r == q
    ensures Joined(front, q) == None <==> front == None || q == None
  {
    if front.Some? && r.Some? && q.Some? && front.value + r.value.value == front.value + q.value.value {
      assert (front.value + r.value.value)[|front.value|..] == r.value.value;
      assert (front.value + q.value.value)[|front.value|..] == q.value.value;
    }
  }

  /** With blanks behind it but no line break, a backslash is refused. */
  lemma {:induction false} BlanksOnlyAreRefused(a: Text, w: Text, t: Text)
    requires IsTame(a) && IsRun(w) && w != [] && 10 !in w
    requires !StartsBlank(t) && !StartsBreak(t)
    ensures ParseString(OPENING + a + [92] + w + t) == None
  {
    var s := [92] + w + t;
    assert OPENING + a + [92] + w + t == OPENING + a + s && s[1..] == w + t;
    FrontIsRead(a, s);
    BlanksEnd(w, t);
  }

  lemma {:induction false} BlanksEnd(w: Text, t: Text)
    requires IsRun(w) && 10 !in w
    requires !StartsBlank(t) && !StartsBreak(t)
    ensures LeadingWhitespace(w + t) == None || (LeadingWhitespace(w + t) == Some(t) && !LineBreak(t).Broken?)
    decreases |w|
  {
    if w == [] {
      assert w + t == t;
    } else {
      assert (w + t)[1..] == w[1..] + t;
      BlanksEnd(w[1..], t);
    }
  }

  /** In a string of one line a backslash before a blank or a line break is always refused. */
  lemma {:induction false} NoLineEndInOneLine(w: Text, t: Text)
    requires StartsBlank(w) || StartsBreak(w)
    ensures ParseString([34, 92] + w + t) == None
  {
    var s := [92] + (w + t);
    assert ([34, 92] + w + t)[1..] == s && s[1..] == w + t;
    assert w + t != [] && (w + t)[0] == w[0] && AfterBackslash(w + t, false) == None;
  }

  /** The two lines of `ab` with a backslash between them; and with a no-break space behind the line break, which is a
      character of the value to TOML, and is lost. */
  lemma {:induction false} TwoLines()
    ensures ParseString(OPENING + ['a' as int, 92, 10, 32, 32] + ['b' as int, 34, 34, 34])
            == Some(Parsed(['a' as int, 'b' as int], []))
    ensures ParseString(OPENING + ['a' as int, 92, 10] + [0xA0, 'b' as int, 34, 34, 34])
            == Some(Parsed(['a' as int, 'b' as int], []))
  {
    var a, t := ['a' as int], ['b' as int, 34, 34, 34];
    LineEndIsRead(a, [10, 32, 32], t);
    LineEndIsRead(a, [10], [0xA0] + t);
    assert OPENING + a + [92] + [10, 32, 32] + t == OPENING + ['a' as int, 92, 10, 32, 32] + t;
    assert OPENING + a + [92] + [10] + ([0xA0] + t) == OPENING + ['a' as int, 92, 10] + [0xA0, 'b' as int, 34, 34, 34];
    assert t[1..] == [34, 34, 34] && ([0xA0] + t)[1..] == t;
    OneClosed(t[1..]);
    assert a[1..] == [] && ['a' as int] + [] == a;
    assert Plain(a) == Before('a' as int, Plain([])) == Some(a);
    assert BasicBody(t, true, true) == Prepend(['b' as int], Some(Parsed([], [])));
    assert a + ['b' as int] == ['a' as int, 'b' as int] && ['b' as int] + [] == ['b' as int];
  }

  lemma {:induction false} OneClosed(t: Text)
    requires t == [34, 34, 34]
    ensures BasicBody(t, true, false) == Some(Parsed([], []))
  {
    assert QuoteRun(t, QUOTE, 5) == 1 + QuoteRun(t[1..], QUOTE, 4);
    assert QuoteRun(t[1..], QUOTE, 4) == 1 + QuoteRun(t[2..], QUOTE, 3);
    assert QuoteRun(t[2..], QUOTE, 3) == 1 + QuoteRun(t[3..], QUOTE, 2);
  }
}
