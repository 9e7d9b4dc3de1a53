/** Paths into a document: the parser of their text form, the printer, and what printing and
    parsing back keeps. */
module TomlPath {

  import opened Wrappers
  import opened Sequences
  import opened TomlChars
  import opened TomlIntegers

  /** A component is a table key or an array index. */
  datatype Component = Key(key: Text) | Index(index: nat)

  const DOT := '.' as int
  const OPEN := '[' as int
  const SHUT := ']' as int
  const SPACE := ' ' as int
  const TAB := '\t' as int

  predicate IsSpecial(c: int) { c == DOT || c == OPEN || c == SHUT }

  predicate IsBlank(c: int) { c == SPACE || c == TAB }

  predicate IsDecimal(c: int) { '0' as int <= c <= '9' as int }

  // ---------- Printing ----------

  function IndexText(n: nat): Text { [OPEN] + (PrintInteger(n, Decimal, 0) + [SHUT]) }

  function ComponentText(c: Component, root: bool): Text {
    match c
    case Key(k) => if root then k else [DOT] + k
    case Index(n) => IndexText(n)
  }

  /** The components after the first. */
  function PrintRest(cs: seq<Component>): Text {
    if cs == [] then [] else ComponentText(cs[0], false) + PrintRest(cs[1..])
  }

  function Print(cs: seq<Component>): Text {
    if cs == [] then [] else ComponentText(cs[0], true) + PrintRest(cs[1..])
  }

  // ---------- Parsing ----------

  function SkipBlanks(t: Text): (r: Text)
    ensures |r| <= |t| && (r != [] ==> !IsBlank(r[0]))
  {
    if t != [] && IsBlank(t[0]) then SkipBlanks(t[1..]) else t
  }

  function TakeDigits(t: Text): (r: (Text, Text))
    ensures |r.0| + |r.1| == |t| && AllDigits(Decimal, r.0)
  {
    if t != [] && IsDecimal(t[0]) then
      var r := TakeDigits(t[1..]);
      ([t[0]] + r.0, r.1)
    else ([], t)
  }

  /** The end of an indexer: the closing bracket may be missing at the end, or before a dot or another indexer. */
  function CloseIndex(t: Text): (r: Option<Text>)
    ensures r.Some? ==> |r.value| <= |t|
  {
    var u := SkipBlanks(t);
    if u == [] then Some([])
    else if u[0] == SHUT then Some(u[1..])
    else if u[0] == DOT || u[0] == OPEN then Some(u)
    else None
  }

  /** What follows an opening bracket. */
  function ReadIndex(t: Text): (r: Option<(nat, Text)>)
    ensures r.Some? ==> |r.value.1| < |t|
  {
    var d := TakeDigits(SkipBlanks(t));
    ValueBounds(Decimal, d.0);
    if d.0 == [] || CloseIndex(d.1).None? then None
    else if Value(Decimal, d.0) >= TWO_TO_THE_64 then None
    else Some((Value(Decimal, d.0), CloseIndex(d.1).value))
  }

  /** The characters before the next special one. */
  function TakeKey(t: Text): (r: (Text, Text))
    ensures |r.0| + |r.1| == |t| && (t != [] && !IsSpecial(t[0]) ==> r.0 != [])
    ensures forall k :: 0 <= k < |r.0| ==> !IsSpecial(r.0[k])
  {
    if t != [] && !IsSpecial(t[0]) then
      var r := TakeKey(t[1..]);
      ([t[0]] + r.0, r.1)
    else ([], t)
  }

  predicate AllBlank(t: Text) { forall k :: 0 <= k < |t| ==> IsBlank(t[k]) }

  function Before(cs: seq<Component>, rest: Option<seq<Component>>): Option<seq<Component>> {
    match rest case None => None case Some(r) => Some(cs + r)
  }

  lemma {:induction false} BeforeNothing(rest: Option<seq<Component>>)
    ensures Before([], rest) == rest
  {
    if rest.Some? { assert [] + rest.value == rest.value; }
  }

  lemma {:induction false} BeforeBoth(a: seq<Component>, b: seq<Component>, rest: Option<seq<Component>>)
    ensures Before(a, Before(b, rest)) == Before(a + b, rest)
  {
    if rest.Some? { assert a + (b + rest.value) == a + b + rest.value; }
  }

  /** The components of the text that is left, given what came just before it. */
  function ParseFrom(t: Text, afterIndex: bool, afterDot: bool): Option<seq<Component>>
    decreases |t|
  {
    if t == [] then Some(if afterDot then [Key([])] else [])
    else if t[0] == OPEN then
      match ReadIndex(t[1..])
      case None => None
      case Some(p) => Before([Index(p.0)], ParseFrom(p.1, true, false))
    else if t[0] == DOT then
      Before(if afterDot then [Key([])] else [], ParseFrom(t[1..], false, true))
    else if t[0] == SHUT then None
    else
      var p := TakeKey(t);
      if !afterIndex then Before([Key(p.0)], ParseFrom(p.1, false, false))
      else if AllBlank(p.0) then ParseFrom(p.1, false, false)
      else None
  }

  function Parse(path: Text): Option<seq<Component>> {
    if path == [] then Some([Key([])]) else ParseFrom(path, false, true)
  }

  // ---------- Round trip ----------

  predicate PlainKey(k: Text) { forall i :: 0 <= i < |k| ==> !IsSpecial(k[i]) }

  predicate PlainKeys(cs: seq<Component>) {
    forall i :: 0 <= i < |cs| && cs[i].Key? ==> PlainKey(cs[i].key)
  }

  /** Array indices are `size_t` values. */
  predicate SizedIndices(cs: seq<Component>) {
    forall i :: 0 <= i < |cs| && cs[i].Index? ==> cs[i].index < TWO_TO_THE_64
  }

  /** An empty key directly before an index leaves no trace in the text. */
  predicate Vanishes(cs: seq<Component>, i: nat)
    requires i < |cs|
  {
    cs[i] == Key([]) && i + 1 < |cs| && cs[i + 1].Index?
  }

  function Kept(cs: seq<Component>): (r: seq<Component>)
    ensures |r| <= |cs|
  {
    if cs == [] then []
    else (if Vanishes(cs, 0) then [] else [cs[0]]) + Kept(cs[1..])
  }

  lemma {:induction false} KeptIsAll(cs: seq<Component>)
    ensures (Kept(cs) == cs) <==> forall i :: 0 <= i < |cs| ==> !Vanishes(cs, i)
    ensures (Kept(cs) == cs) <==> |Kept(cs)| == |cs|
  {
    if cs != [] {
      KeptIsAll(cs[1..]);
      assert forall i :: 1 <= i < |cs| ==> Vanishes(cs, i) == Vanishes(cs[1..], i - 1);
      assert forall i :: 0 <= i < |cs[1..]| ==> Vanishes(cs[1..], i) == Vanishes(cs, i + 1);
      assert cs == [cs[0]] + cs[1..];
      if Kept(cs) == cs && !Vanishes(cs, 0) { assert Kept(cs)[1..] == Kept(cs[1..]); }
    }
  }

  lemma {:induction false} TakeDigitsReads(ds: Text, rest: Text)
    requires AllDigits(Decimal, ds) && (rest == [] || !IsDecimal(rest[0]))
    ensures TakeDigits(ds + rest) == (ds, rest)
  {
    if ds == [] {
      assert ds + rest == rest;
    } else {
      assert (ds + rest)[1..] == ds[1..] + rest && ds == [ds[0]] + ds[1..];
      assert Decimal.IsDigit(ds[0]);
      TakeDigitsReads(ds[1..], rest);
    }
  }

  lemma {:induction false} PrintedDigits(n: nat)
    ensures PrintInteger(n, Decimal, 0) == ToDigits(Decimal, n)
  {
    if n == 0 { assert Zeros(1) == [ZERO] + Zeros(0); }
  }

  lemma {:induction false} ReadIndexIs(t: Text, ds: Text, rest: Text)
    requires ds != [] && AllDigits(Decimal, ds) && t == ds + ([SHUT] + rest) && TakeDigits(t) == (ds, [SHUT] + rest)
    requires Value(Decimal, ds) < TWO_TO_THE_64
    ensures ReadIndex(t) == Some((Value(Decimal, ds), rest))
  {
    assert t[0] == ds[0] && Decimal.IsDigit(ds[0]);
    assert ([SHUT] + rest)[1..] == rest;
    hide Value, TakeDigits, AllDigits;
  }

  lemma {:induction false} ReadIndexReads(n: nat, rest: Text)
    requires n < TWO_TO_THE_64
    ensures ReadIndex(PrintInteger(n, Decimal, 0) + [SHUT] + rest) == Some((n, rest))
  {
    var ds := PrintInteger(n, Decimal, 0);
    PrintedDigits(n);
    ToDigitsValue(Decimal, n);
    var t := ds + ([SHUT] + rest);
    hide *;
    assert ds + [SHUT] + rest == t;
    TakeDigitsReads(ds, [SHUT] + rest);
    ReadIndexIs(t, ds, rest);
  }

  lemma {:induction false} TakeKeyReads(k: Text, rest: Text)
    requires PlainKey(k) && (rest == [] || IsSpecial(rest[0]))
    ensures TakeKey(k + rest) == (k, rest)
  {
    if k == [] {
      assert k + rest == rest;
    } else {
      assert (k + rest)[1..] == k[1..] + rest && k == [k[0]] + k[1..];
      TakeKeyReads(k[1..], rest);
    }
  }

  lemma {:induction false} PrintRestStarts(cs: seq<Component>)
    ensures PrintRest(cs) == [] || PrintRest(cs)[0] == DOT || PrintRest(cs)[0] == OPEN
  {
  }

  predicate Printable(cs: seq<Component>) { PlainKeys(cs) && SizedIndices(cs) }

  lemma {:induction false} TailPrintable(cs: seq<Component>)
    requires cs != [] && Printable(cs)
    ensures Printable(cs[1..])
  {
  }

  lemma {:induction false} KeptAfter(c: Component, cs: seq<Component>)
    ensures Kept([c] + cs) == (if c == Key([]) && cs != [] && cs[0].Index? then [] else [c]) + Kept(cs)
  {
  }

  lemma {:induction false} ParseKey(k: Text, rest: Text)
    requires PlainKey(k) && k != [] && (rest == [] || IsSpecial(rest[0]))
    ensures ParseFrom(k + rest, false, true) == Before([Key(k)], ParseFrom(rest, false, false))
  {
    TakeKeyReads(k, rest);
    assert !IsSpecial(k[0]) && (k + rest)[0] == k[0];
  }

  lemma {:induction false} ParseDot(k: Text, rest: Text, afterIndex: bool, afterDot: bool)
    ensures ParseFrom([DOT] + k + rest, afterIndex, afterDot) ==
            Before(if afterDot then [Key([])] else [], ParseFrom(k + rest, false, true))
  {
    assert ([DOT] + k + rest)[1..] == k + rest;
  }

  /** After a key's text, or right after a dot when that key is empty. */
  lemma {:induction false} ParseKeyText(k: Text, cs: seq<Component>)
    requires PlainKey(k) && Printable(cs)
    ensures ParseFrom(k + PrintRest(cs), false, true) == Some(Kept([Key(k)] + cs))
    decreases |cs|, 1
  {
    KeptAfter(Key(k), cs);
    PrintRestStarts(cs);
    if k != [] {
      ParseKey(k, PrintRest(cs));
      ParseRest(cs, false);
    } else {
      assert k + PrintRest(cs) == PrintRest(cs);
      if cs == [] {
        assert k + PrintRest(cs) == [] && [Key(k)] + Kept(cs) == [Key([])];
      } else {
        TailPrintable(cs);
        hide ParseFrom, Kept;
        assert cs == [cs[0]] + cs[1..];
        match cs[0]
        case Index(n) =>
          ParseIndexText(n, cs[1..], false, true);
          assert [] + Kept(cs) == Kept(cs);
        case Key(j) =>
          ParseDot(j, PrintRest(cs[1..]), false, true);
          ParseKeyText(j, cs[1..]);
      }
    }
  }

  lemma {:induction false} ParseIndexer(n: nat, rest: Text, afterIndex: bool, afterDot: bool)
    requires n < TWO_TO_THE_64
    ensures ParseFrom(IndexText(n) + rest, afterIndex, afterDot) == Before([Index(n)], ParseFrom(rest, true, false))
  {
    ReadIndexReads(n, rest);
    hide PrintInteger, ReadIndex, TakeKey;
    assert (IndexText(n) + rest)[0] == OPEN;
    assert (IndexText(n) + rest)[1..] == PrintInteger(n, Decimal, 0) + [SHUT] + rest;
  }

  lemma {:induction false} ParseIndexText(n: nat, cs: seq<Component>, afterIndex: bool, afterDot: bool)
    requires n < TWO_TO_THE_64 && Printable(cs)
    ensures ParseFrom(IndexText(n) + PrintRest(cs), afterIndex, afterDot) == Some(Kept([Index(n)] + cs))
    decreases |cs|, 1
  {
    ParseIndexer(n, PrintRest(cs), afterIndex, afterDot);
    KeptAfter(Index(n), cs);
    hide ParseFrom, Kept, IndexText, Printable;
    ParseRest(cs, true);
  }

  /** The components after a key or an index that left something in the text. */
  lemma {:induction false} ParseRest(cs: seq<Component>, afterIndex: bool)
    requires Printable(cs)
    ensures ParseFrom(PrintRest(cs), afterIndex, false) == Some(Kept(cs))
    decreases |cs|, 0
  {
    if cs != [] {
      TailPrintable(cs);
      assert cs == [cs[0]] + cs[1..];
      match cs[0]
      case Index(n) =>
        ParseIndexText(n, cs[1..], afterIndex, false);
      case Key(k) =>
        ParseDot(k, PrintRest(cs[1..]), afterIndex, false);
        ParseKeyText(k, cs[1..]);
        BeforeNothing(ParseFrom(k + PrintRest(cs[1..]), false, true));
    }
  }

  /** Parsing a printed path gives back its components but for the empty keys before an index. */
  lemma {:induction false} ParsePrinted(cs: seq<Component>)
    requires cs != [] && Printable(cs)
    ensures Parse(Print(cs)) == Some(Kept(cs))
  {
    TailPrintable(cs);
    assert cs == [cs[0]] + cs[1..];
    match cs[0]
    case Index(n) =>
      ParseIndexText(n, cs[1..], false, true);
    case Key(k) =>
      ParseKeyText(k, cs[1..]);
  }

  /** No parsed key holds a special character, whatever the text. */
  lemma {:induction false} ParsedKeysArePlain(t: Text, afterIndex: bool, afterDot: bool)
    requires ParseFrom(t, afterIndex, afterDot).Some?
    ensures PlainKeys(ParseFrom(t, afterIndex, afterDot).value)
    decreases |t|
  {
    if t != [] {
      if t[0] == OPEN {
        ParsedKeysArePlain(ReadIndex(t[1..]).value.1, true, false);
      } else if t[0] == DOT {
        ParsedKeysArePlain(t[1..], false, true);
      } else {
        ParsedKeysArePlain(TakeKey(t).1, false, false);
      }
    }
  }

  /** Parsing undoes printing for exactly these component lists. */
  lemma {:induction false} RoundTrip(cs: seq<Component>)
    requires SizedIndices(cs)
    ensures Parse(Print(cs)) == Some(cs) <==>
            cs != [] && PlainKeys(cs) && forall i :: 0 <= i < |cs| ==> !Vanishes(cs, i)
  {
    if cs != [] && PlainKeys(cs) {
      ParsePrinted(cs);
      KeptIsAll(cs);
    } else if Parse(Print(cs)) == Some(cs) && cs != [] {
      if Print(cs) != [] { ParsedKeysArePlain(Print(cs), false, true); }
    }
  }

  /** An empty key directly before an index is lost. */
  lemma {:induction false} EmptyKeyIsLost()
    ensures Parse(Print([Key([]), Index(0)])) == Some([Index(0)])
  {
    var cs: seq<Component> := [Key([]), Index(0)];
    var last: seq<Component> := [Index(0)];
    assert Printable(cs);
    ParsePrinted(cs);
    assert cs[1..] == last && last[1..] == [] && Kept([]) == [];
    assert !Vanishes(last, 0) && Vanishes(cs, 0);
    var none: seq<Component> := [];
    assert Kept(last) == [last[0]] + Kept(last[1..]) == last + none == last;
    assert Kept(cs) == none + Kept(cs[1..]) == Kept(last);
  }

  // ---------- The path object ----------

  lemma {:induction false} BlankRun(t: Text, begin: nat, pos: nat)
    requires begin <= pos <= |t| && forall k :: begin <= k < pos ==> IsBlank(t[k])
    ensures SkipBlanks(t[begin..]) == SkipBlanks(t[pos..])
    decreases pos - begin
  {
    if begin < pos {
      assert t[begin..][1..] == t[begin + 1..];
      BlankRun(t, begin + 1, pos);
    }
  }

  lemma {:induction false} DigitRun(t: Text, begin: nat, pos: nat)
    requires begin <= pos <= |t| && forall k :: begin <= k < pos ==> IsDecimal(t[k])
    requires pos == |t| || !IsDecimal(t[pos])
    ensures TakeDigits(t[begin..]) == (t[begin..pos], t[pos..])
    decreases pos - begin
  {
    if begin < pos {
      assert t[begin..][1..] == t[begin + 1..];
      DigitRun(t, begin + 1, pos);
      assert t[begin..pos] == [t[begin]] + t[begin + 1..pos];
    } else {
      assert t[begin..pos] == [];
      assert begin < |t| ==> t[begin..][0] == t[begin];
    }
  }

  lemma {:induction false} KeyRun(t: Text, begin: nat, pos: nat)
    requires begin <= pos <= |t| && forall k :: begin <= k < pos ==> !IsSpecial(t[k])
    requires pos == |t| || IsSpecial(t[pos])
    ensures TakeKey(t[begin..]) == (t[begin..pos], t[pos..])
    decreases pos - begin
  {
    if begin < pos {
      assert t[begin..][1..] == t[begin + 1..];
      KeyRun(t, begin + 1, pos);
      assert t[begin..pos] == [t[begin]] + t[begin + 1..pos];
    } else {
      assert t[begin..pos] == [];
      assert begin < |t| ==> t[begin..][0] == t[begin];
    }
  }

  /** The first digit of an index, after blanks. */
  method FindIndexStart(path: Text, start: nat) returns (at: Option<nat>)
    requires start <= |path|
    ensures at.None? ==> ReadIndex(path[start..]).None?
    ensures at.Some? ==> start <= at.value < |path| && IsDecimal(path[at.value])
    ensures at.Some? ==> SkipBlanks(path[start..]) == path[at.value..]
  {
    var pos := start;
    while true
      invariant start <= pos <= |path| && forall k :: start <= k < pos ==> IsBlank(path[k])
      decreases |path| - pos
    {
      BlankRun(path, start, pos);
      if pos >= |path| { return None; }
      var c := path[pos];
      if IsDecimal(c) { return Some(pos); }
      if !IsBlank(c) { return None; }
      pos := pos + 1;
    }
  }

  /** Past the closing bracket, or to the character an unclosed indexer stops at. */
  method FindIndexerEnd(path: Text, start: nat) returns (at: Option<nat>)
    requires start <= |path|
    ensures at.Some? == CloseIndex(path[start..]).Some?
    ensures at.Some? ==> start <= at.value <= |path| && CloseIndex(path[start..]) == Some(path[at.value..])
  {
    var pos := start;
    while true
      invariant start <= pos <= |path| && forall k :: start <= k < pos ==> IsBlank(path[k])
      decreases |path| - pos
    {
      BlankRun(path, start, pos);
      if pos >= |path| { return Some(pos); }
      var c := path[pos];
      assert path[pos..][1..] == path[pos + 1..];
      if c == SHUT { return Some(pos + 1); }
      if c == DOT || c == OPEN { return Some(pos); }
      if !IsBlank(c) { return None; }
      pos := pos + 1;
    }
  }

  method ReadIndexAt(path: Text, start: nat) returns (index: Option<nat>, pos: nat)
    requires start <= |path|
    ensures pos <= |path| && index.Some? == ReadIndex(path[start..]).Some?
    ensures index.Some? ==> start < pos && ReadIndex(path[start..]) == Some((index.value, path[pos..]))
  {
    var indexStart := FindIndexStart(path, start);
    if indexStart.None? { return None, start; }
    pos := indexStart.value + 1;
    while pos < |path| && IsDecimal(path[pos])
      invariant indexStart.value < pos <= |path| && forall k :: indexStart.value <= k < pos ==> IsDecimal(path[k])
    {
      pos := pos + 1;
    }
    DigitRun(path, indexStart.value, pos);
    var indexEnd := pos;
    if pos < |path| && path[pos] != SHUT && !IsBlank(path[pos]) && path[pos] != DOT && path[pos] != OPEN {
      return None, pos;
    }
    var after := FindIndexerEnd(path, pos);
    if after.None? { return None, pos; }
    pos := after.value;
    var digits := path[indexStart.value..indexEnd];
    ValueBounds(Decimal, digits);
    if |digits| == 1 {
      ValueOne(Decimal, digits[0]);
      assert digits == [digits[0]];
      index := Some(digits[0] - ZERO);
    } else {
      index := if Value(Decimal, digits) < TWO_TO_THE_64 then Some(Value(Decimal, digits)) else None;
    }
  }

  method FindKeyEnd(path: Text, start: nat) returns (pos: nat)
    requires start < |path| && !IsSpecial(path[start])
    ensures start < pos <= |path| && TakeKey(path[start..]) == (path[start..pos], path[pos..])
  {
    pos := start + 1;
    while pos < |path| && !IsSpecial(path[pos])
      invariant start < pos <= |path| && forall k :: start <= k < pos ==> !IsSpecial(path[k])
    {
      pos := pos + 1;
    }
    KeyRun(path, start, pos);
  }

  function PrintFrom(cs: seq<Component>, i: nat): Text
    requires i <= |cs|
    ensures i == |cs| ==> PrintFrom(cs, i) == []
    ensures i == 0 ==> PrintFrom(cs, i) == Print(cs)
  {
    if i == 0 then Print(cs) else PrintRest(cs[i..])
  }

  lemma {:induction false} PrintStep(cs: seq<Component>, i: nat)
    requires i < |cs|
    ensures PrintFrom(cs, i) == ComponentText(cs[i], i == 0) + PrintFrom(cs, i + 1)
  {
    assert cs[i..][1..] == cs[i + 1..];
  }

  class Path {
    var components: seq<Component>

    constructor ()
      ensures components == []
    {
      components := [];
    }

    /** One turn of the parse loop; `more` says that text may be left. */
    method ParseOne(path: Text, start: nat, afterIndex: bool, afterDot: bool)
      returns (ok: bool, pos: nat, wasIndex: bool, wasDot: bool)
      requires start < |path|
      modifies this
      ensures old(components) <= components && pos <= |path|
      ensures ParseFrom(path[start..], afterIndex, afterDot) ==
              if ok then Before(components[|old(components)|..], ParseFrom(path[pos..], wasIndex, wasDot)) else None
      ensures ok ==> start < pos
    {
      pos, wasIndex, wasDot := start, false, false;
      assert path[start..][1..] == path[start + 1..];
      ghost var rest := path[start..];
      var added: seq<Component> := [];
      if path[pos] == OPEN {
        var index;
        index, pos := ReadIndexAt(path, pos + 1);
        if index.None? { return false, pos, false, false; }
        wasIndex := true;
        added := [Index(index.value)];
      } else if path[pos] == DOT {
        if afterDot { added := [Key([])]; }
        pos := pos + 1;
        wasDot := true;
      } else if path[pos] == SHUT {
        return false, pos, false, false;
      } else {
        var end := FindKeyEnd(path, pos);
        var subkey := path[pos..end];
        pos := end;
        if !afterIndex {
          added := [Key(subkey)];
        } else if !AllBlank(subkey) {
          return false, pos, false, false;
        } else {
          BeforeNothing(ParseFrom(path[pos..], false, false));
        }
      }
      components := components + added;
      assert components[|old(components)|..] == added;
      ok := true;
    }

    /** `parse_path` feeding its callbacks into the component list. */
    method ParsePath(path: Text) returns (ok: bool)
      modifies this
      ensures old(components) <= components && ok == Parse(path).Some?
      ensures ok ==> components == old(components) + Parse(path).value
    {
      if |path| == 0 {
        components := components + [Key([])];
        return true;
      }
      var pos, afterIndex, afterDot := 0, false, true;
      assert path[0..] == path && components[|old(components)|..] == [];
      BeforeNothing(ParseFrom(path, false, true));
      while pos < |path|
        invariant 0 <= pos <= |path| && old(components) <= components
        invariant Parse(path) == Before(components[|old(components)|..], ParseFrom(path[pos..], afterIndex, afterDot))
      {
        hide ParseFrom, Parse;
        ghost var before, rest := components, ParseFrom(path[pos..], afterIndex, afterDot);
        var more;
        more, pos, afterIndex, afterDot := ParseOne(path, pos, afterIndex, afterDot);
        if !more { return false; }
        BeforeBoth(before[|old(components)|..], components[|before|..], ParseFrom(path[pos..], afterIndex, afterDot));
        assert components[|old(components)|..] == before[|old(components)|..] + components[|before|..];
      }
      if afterDot { components := components + [Key([])]; }
      ok := true;
    }

    /** `parse_path_into`: a path that fails to parse leaves the components as they were. */
    method ParseInto(path: Text) returns (ok: bool)
      modifies this
      ensures ok == Parse(path).Some?
      ensures components == if ok then old(components) + Parse(path).value else old(components)
    {
      var originalSize := |components|;
      ok := ParsePath(path);
      if !ok { components := components[..originalSize]; }
    }

    /** `print_to`. */
    method PrintTo() returns (out: Text)
      ensures out == Print(components)
    {
      hide *;
      out := [];
      var root := true;
      assert [] + Print(components) == Print(components);
      for i := 0 to |components|
        invariant root == (i == 0) && Print(components) == out + PrintFrom(components, i)
      {
        PrintStep(components, i);
        var shown := PrintComponent(components[i], root);
        Regroup(out, shown, PrintFrom(components, i + 1));
        out := out + shown;
        root := false;
      }
    }

    static method PrintComponent(component: Component, root: bool) returns (out: Text)
      ensures out == ComponentText(component, root)
    {
      out := [];
      match component {
        case Key(k) =>
          if !root { out := out + [DOT]; }
          out := out + k;
        case Index(n) =>
          out := out + [OPEN];
          out := out + PrintInteger(n, Decimal, 0);
          out := out + [SHUT];
      }
    }
  }
}
