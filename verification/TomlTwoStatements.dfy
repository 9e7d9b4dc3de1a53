/** Which statements may follow one another: the rules of redefinition, for all documents of two statements. */
module TomlTwoStatements {
  import opened TomlTree
  import opened TomlDocument
  import opened TomlRedefinition
  import opened TomlNesting

  /** No key leads to the other or is the other. */
  predicate AreApart(a: seq<string>, b: seq<string>) { !(a <= b) && !(b <= a) }

  /** A header may come again only for one more element of an array of tables; a table on the way to an earlier header
      may be opened, but not as an array; behind a header every key is new; and a key that has a value, or that leads
      to one, is not to be used again, nor one that a value is in the way of. */
  predicate MayFollow(first: Statement, second: Statement) {
    match (first, second)
    case (Header(k, a), Header(j, b)) => if j == k then a && b else j <= k ==> !b
    case (Header(_, _), KeyValue(_, _)) => true
    case (KeyValue(k, _), _) => AreApart(k, second.key)
  }

  // ---------- What the first statement defines ----------

  lemma {:induction false} KeyAt(key: seq<string>, i: nat)
    requires i < |key|
    ensures Keys(key)[i] == Key(key[i])
  {
    if i > 0 { KeyAt(key[1..], i - 1); }
  }

  /** A way of segments has been defined, all but the last in one way. */
  ghost predicate IsLine(known: Known, key: seq<string>, mid: How, last: How) {
    && key != []
    && (forall p: seq<Step> :: p in known && |p| <= |key| <==> p <= Keys(key))
    && (forall p :: p in known && 0 < |p| < |key| ==> known[p] == mid)
    && Keys(key) in known && known[Keys(key)] == last
    && (forall p :: p in known && |p| > |key| ==> p == Keys(key) + [Index(0)])
  }

  lemma {:induction false} LineIsDefined(known: Known, at: seq<Step>, segments: seq<string>, how: How, p: seq<Step>)
    ensures p in DefineAll(known, at, segments, how)
            <==> p in known || (at <= p && p <= at + Keys(segments) && |p| > |at|)
    ensures p in DefineAll(known, at, segments, how) ==>
              DefineAll(known, at, segments, how)[p]
              == if at <= p && p <= at + Keys(segments) && |p| > |at| then how else known[p]
    decreases |segments|
  {
    if segments != [] {
      var q := at + [Key(segments[0])];
      KeysDown(at, segments);
      LineIsDefined(known[q := how], q, segments[1..], how, p);
      assert at <= p && p <= at + Keys(segments) && |p| > |at| <==> q <= p && p <= q + Keys(segments[1..]);
      assert q <= p && |p| <= |q| ==> p == q;
    }
  }

  lemma {:induction false} FrontOf(key: seq<string>)
    requires key != []
    ensures Keys(key) == Keys(key[..|key| - 1]) + [Key(key[|key| - 1])]
  {
    KeysSnoc([], key, |key| - 1);
    assert key[..|key| - 1 + 1] == key;
    assert [] + Keys(key) == Keys(key) && [] + Keys(key[..|key| - 1]) == Keys(key[..|key| - 1]);
  }

  /** At the beginning every way leads into nothing. */
  lemma {:induction false} NothingOnTheWay(segments: seq<string>)
    ensures HeaderWay(NOTHING_DEFINED.known, [], segments) == Arrives([], segments)
    ensures KeyWay(NOTHING_DEFINED.known, [], segments) == Arrives([], segments)
  {
  }

  lemma {:induction false} FirstLineAt(key: seq<string>, mid: How, last: How, p: seq<Step>)
    requires key != []
    ensures var known := DefineAll(NOTHING_DEFINED.known, [], key[..|key| - 1], mid)[Keys(key) := last];
            && (p in known <==> p <= Keys(key))
            && (p in known && 0 < |p| < |key| ==> known[p] == mid)
  {
    var front := key[..|key| - 1];
    LineIsDefined(NOTHING_DEFINED.known, [], front, mid, p);
    FrontOf(key);
    assert [] + Keys(front) == Keys(front);
    hide DefineAll, Keys;
    if p <= Keys(key) && |p| == |key| { assert p == Keys(key); }
    assert p <= Keys(key) && |p| < |key| <==> p <= Keys(front);
  }

  lemma {:induction false} FirstLine(key: seq<string>, mid: How, last: How)
    requires key != []
    ensures IsLine(DefineAll(NOTHING_DEFINED.known, [], key[..|key| - 1], mid)[Keys(key) := last], key, mid, last)
  {
    hide DefineAll, Keys;
    var known := DefineAll(NOTHING_DEFINED.known, [], key[..|key| - 1], mid)[Keys(key) := last];
    forall p: seq<Step>
      ensures p in known <==> p <= Keys(key)
      ensures p in known && 0 < |p| < |key| ==> known[p] == mid
    {
      FirstLineAt(key, mid, last, p);
    }
  }

  /** A key/value statement at the beginning. */
  lemma {:induction false} AfterFirstKey(key: seq<string>, value: Syntax)
    requires key != []
    ensures IsLine(AfterKeyValue(NOTHING_DEFINED, key, value).known, key, ByDottedKey, ByValue(value))
    ensures AfterKeyValue(NOTHING_DEFINED, key, value).current == []
  {
    NothingOnTheWay(key[..|key| - 1]);
    FirstLine(key, ByDottedKey, ByValue(value));
    FrontOf(key);
    assert [] + Keys(key[..|key| - 1]) == Keys(key[..|key| - 1]);
    hide IsLine;
  }

  /** A header at the beginning. */
  lemma {:induction false} AfterFirstHeader(key: seq<string>, isArray: bool)
    requires key != []
    ensures var after := AfterHeader(NOTHING_DEFINED, key, isArray);
            && IsLine(after.known, key, Implicitly, if isArray then AsTableArray(1) else ByHeader)
            && after.current == if isArray then Keys(key) + [Index(0)] else Keys(key)
  {
    var front := key[..|key| - 1];
    NothingOnTheWay(front);
    FirstLine(key, Implicitly, if isArray then AsTableArray(1) else ByHeader);
    FrontOf(key);
    assert [] + Keys(front) == Keys(front);
    var made := DefineAll(NOTHING_DEFINED.known, [], front, Implicitly);
    LineIsDefined(NOTHING_DEFINED.known, [], front, Implicitly, Keys(key));
    assert Keys(key) !in made;
  }

  // ---------- The way of the second one ----------

  /** How many segments two keys begin with alike. */
  function Common(a: seq<string>, b: seq<string>): (n: nat)
    ensures n <= |a| && n <= |b| && a[..n] == b[..n]
    ensures n < |a| && n < |b| ==> a[n] != b[n]
  {
    if a == [] || b == [] || a[0] != b[0] then 0 else 1 + Common(a[1..], b[1..])
  }

  /** One segment further along the line, or off it. */
  lemma {:induction false} OneOnLine(known: Known, key: seq<string>, mid: How, last: How, i: nat, s: string)
    requires IsLine(known, key, mid, last) && i < |key|
    ensures var q := Keys(key[..i]) + [Key(s)];
            && (q in known <==> s == key[i])
            && (s == key[i] ==> q == Keys(key[..i + 1]) && known[q] == if i + 1 == |key| then last else mid)
  {
    var q := Keys(key[..i]) + [Key(s)];
    LineSplit(key, i);
    KeysSnoc([], key, i);
    assert [] + Keys(key[..i + 1]) == Keys(key[..i + 1]) && [] + Keys(key[..i]) == Keys(key[..i]);
    KeyAt(key, i);
    if q in known { assert q[i] == Keys(key)[i]; }
    if s == key[i] {
      LineSplit(key, i + 1);
      assert key[..|key|] == key;
    }
  }

  lemma {:induction false} LineSplit(key: seq<string>, i: nat)
    requires i <= |key|
    ensures Keys(key) == Keys(key[..i]) + Keys(key[i..]) && Keys(key[..i]) == Keys(key)[..i]
  {
    KeysConcat(key[..i], key[i..]);
    assert key == key[..i] + key[i..];
  }

  /** Behind the line nothing is defined under a key. */
  lemma {:induction false} BehindLine(known: Known, key: seq<string>, mid: How, last: How, s: string)
    requires IsLine(known, key, mid, last)
    ensures Keys(key) + [Key(s)] !in known && Keys(key) + [Index(0)] + [Key(s)] !in known
  {
    assert (Keys(key) + [Key(s)])[|key|] == Key(s);
  }

  /** Behind the line a header leads into nothing. */
  lemma {:induction false} LastOnLine(known: Known, key: seq<string>, mid: How, last: How, segments: seq<string>)
    requires IsLine(known, key, mid, last)
    ensures HeaderWay(known, Keys(key), segments) == Arrives(Keys(key), segments)
    ensures HeaderWay(known, Keys(key) + [Index(0)], segments) == Arrives(Keys(key) + [Index(0)], segments)
  {
    hide IsLine, Keys;
    if segments != [] { BehindLine(known, key, mid, last, segments[0]); }
  }

  /** Where a header leads that stands on the first `i` segments of the line. */
  lemma {:induction false} HeaderOnLine(
      known: Known, key: seq<string>, mid: How, last: How, i: nat, segments: seq<string>)
    requires IsLine(known, key, mid, last) && i < |key| && (mid == Implicitly || mid == ByDottedKey)
    requires last.ByValue? || last == ByHeader || last == AsTableArray(1)
    ensures var rest, c := key[i..], Common(segments, key[i..]);
            HeaderWay(known, Keys(key[..i]), segments)
            == if c < |rest| then Arrives(Keys(key[..i + c]), segments[c..])
               else match last
                    case ByValue(_) => Refused
                    case ByHeader => Arrives(Keys(key), segments[c..])
                    case _ => Arrives(Keys(key) + [Index(0)], segments[c..])
    decreases |segments|
  {
    hide IsLine, Keys;
    if segments != [] {
      OneOnLine(known, key, mid, last, i, segments[0]);
      assert key[i..][1..] == key[i + 1..] && segments[0..] == segments;
      if segments[0] == key[i] {
        if i + 1 < |key| {
          HeaderOnLine(known, key, mid, last, i + 1, segments[1..]);
        } else {
          assert key[..i + 1] == key && Common(segments[1..], key[i + 1..]) == 0;
          LastOnLine(known, key, mid, last, segments[1..]);
        }
      }
    }
  }

  /** Where a dotted key leads that stands on the first `i` segments of a line of dotted keys. */
  lemma {:induction false} KeyOnLine(known: Known, key: seq<string>, value: Syntax, i: nat, segments: seq<string>)
    requires IsLine(known, key, ByDottedKey, ByValue(value)) && i < |key|
    ensures var rest, c := key[i..], Common(segments, key[i..]);
            KeyWay(known, Keys(key[..i]), segments)
            == if c < |rest| then Arrives(Keys(key[..i + c]), segments[c..]) else Refused
    decreases |segments|
  {
    hide IsLine;
    if segments != [] {
      OneOnLine(known, key, ByDottedKey, ByValue(value), i, segments[0]);
      assert key[i..][1..] == key[i + 1..] && segments[0..] == segments;
      if segments[0] == key[i] && i + 1 < |key| { KeyOnLine(known, key, value, i + 1, segments[1..]); }
    }
  }

  lemma {:induction false} CommonIs(front: seq<string>, key: seq<string>, s: string)
    requires key != []
    ensures var c, j := Common(front, key), front + [s];
            && (c == |key| <==> key <= front)
            && (c < |key| && c == |front| ==>
                 (j <= key <==> s == key[c]) && (j == key <==> s == key[c] && c + 1 == |key|))
            && (c < |key| && c < |front| ==> AreApart(j, key))
            && (c == |key| ==> key <= j && j != key && !(j <= key))
            && (c < |key| && c == |front| ==> (key <= j <==> j == key))
  {
    var c, j := Common(front, key), front + [s];
    if c < |key| && c < |front| { assert j[c] == front[c] != key[c]; }
    if c == |front| && c < |key| {
      assert j[..c] == key[..c];
      if j <= key { assert j[c] == key[c]; }
      if s == key[c] { assert j == key[..c + 1]; }
    }
    if c == |key| { assert front[..c] == key; }
  }

  lemma {:induction false} TablesBelow(known: Known, key: seq<string>, last: How, j: seq<string>)
    requires IsLine(known, key, Implicitly, last) && HoldsTables(last) && |j| < |key|
    ensures OnlyTablesBelow(known, Keys(j))
  {
    forall p | p in known && |p| == |Keys(j)| + 1 && Keys(j) <= p ensures HoldsTables(known[p]) {
      if |p| == |key| { assert p == Keys(key); }
    }
  }

  /** A header behind a line. */
  lemma {:induction false} HeaderBehind(known: Known, key: seq<string>, mid: How, last: How, j: seq<string>, b: bool)
    requires IsLine(known, key, mid, last) && j != []
    requires (mid == Implicitly && (last == ByHeader || last == AsTableArray(1)))
             || (mid == ByDottedKey && last.ByValue?)
    ensures HeaderFits(known, j, b)
            <==> if j == key then last == AsTableArray(1) && b
                 else if j <= key then mid == Implicitly && !b
                 else if key <= j then !last.ByValue?
                 else true
  {
    hide IsLine, HeaderWay, KeyWay, OnlyTablesBelow;
    var front, s := j[..|j| - 1], j[|j| - 1];
    assert j == front + [s] && key[..0] == [] && key[0..] == key && Keys([]) == [];
    var c := Common(front, key);
    assert key != [] by { LineIsNotEmpty(known, key, mid, last); }
    HeaderOnLine(known, key, mid, last, 0, front);
    CommonIs(front, key, s);
    if mid == Implicitly && |j| < |key| { TablesBelow(known, key, last, j); }
    BehindLine(known, key, mid, last, s);
    if c < |key| {
      OneOnLine(known, key, mid, last, c, s);
      if c == |front| && s == key[c] { assert key[..c + 1] == j; }
    }
  }

  lemma {:induction false} LineIsNotEmpty(known: Known, key: seq<string>, mid: How, last: How)
    requires IsLine(known, key, mid, last)
    ensures key != []
  {
  }

  /** A dotted key behind another one. */
  lemma {:induction false} KeyBehind(known: Known, key: seq<string>, value: Syntax, j: seq<string>)
    requires IsLine(known, key, ByDottedKey, ByValue(value)) && j != []
    ensures KeyFits(known, [], j) <==> AreApart(key, j)
  {
    hide IsLine, HeaderWay, KeyWay, OnlyTablesBelow;
    var front, s := j[..|j| - 1], j[|j| - 1];
    assert j == front + [s] && key[..0] == [] && key[0..] == key && Keys([]) == [];
    var c := Common(front, key);
    assert key != [] by { LineIsNotEmpty(known, key, ByDottedKey, ByValue(value)); }
    KeyOnLine(known, key, value, 0, front);
    CommonIs(front, key, s);
    if c < |key| {
      OneOnLine(known, key, ByDottedKey, ByValue(value), c, s);
      if c == |front| && s == key[c] { assert key[..c + 1] == j; }
    }
  }

  /** Behind a header every key is new. */
  lemma {:induction false} KeyBehindHeader(
      known: Known, key: seq<string>, last: How, current: seq<Step>, j: seq<string>)
    requires IsLine(known, key, Implicitly, last) && j != []
    requires current == Keys(key) || current == Keys(key) + [Index(0)]
    ensures KeyFits(known, current, j)
  {
    BehindLine(known, key, Implicitly, last, j[0]);
    hide IsLine, Keys;
  }

  /** The second statement against what the first one defines. */
  lemma {:induction false} SecondFits(first: Statement, second: Statement)
    requires first.key != [] && second.key != []
    ensures var m := After(NOTHING_DEFINED, first);
            match second
            case Header(j, b) => HeaderFits(m.known, j, b) <==> MayFollow(first, second)
            case KeyValue(j, _) => KeyFits(m.known, m.current, j) <==> MayFollow(first, second)
  {
    var m := After(NOTHING_DEFINED, first);
    hide IsLine, HeaderFits, KeyFits, AfterHeader, AfterKeyValue;
    match first
    case Header(key, a) =>
      AfterFirstHeader(key, a);
      var last := if a then AsTableArray(1) else ByHeader;
      if second.Header? {
        HeaderBehind(m.known, key, Implicitly, last, second.key, second.isArray);
      } else {
        KeyBehindHeader(m.known, key, last, m.current, second.key);
      }
    case KeyValue(key, value) =>
      AfterFirstKey(key, value);
      if second.Header? {
        HeaderBehind(m.known, key, ByDottedKey, ByValue(value), second.key, second.isArray);
      } else {
        KeyBehind(m.known, key, value, second.key);
      }
  }

  /** A document of two statements is accepted if and only if its values are no deeper than 256, with their keys apart,
      and the second statement may follow the first. */
  lemma {:induction false} TwoStatements(first: Statement, second: Statement)
    requires WellKeyed([first, second])
    ensures DocumentAllowed([first, second])
            <==> ValueFits(first) && ValueFits(second) && MayFollow(first, second)
  {
    var document := [first, second];
    ManyStatements(document);
    assert first.key != [] && second.key != [] by { assert document[0].key != [] && document[1].key != []; }
    assert DefinedBy(document, 1) == After(NOTHING_DEFINED, first);
    assert PlaceFits(document, 0) by { FirstFits(first); }
    SecondFits(first, second);
    hide MayFollow, ValueFits, After, HeaderFits, KeyFits;
    assert PlaceFits(document, 1) <==> MayFollow(first, second);
    assert document[0] == first && document[1] == second;
  }

  lemma {:induction false} FirstFits(first: Statement)
    requires first.key != []
    ensures match first
            case Header(key, isArray) => HeaderFits(NOTHING_DEFINED.known, key, isArray)
            case KeyValue(key, _) => KeyFits(NOTHING_DEFINED.known, [], key)
  {
    NothingOnTheWay(first.key[..|first.key| - 1]);
  }
}
