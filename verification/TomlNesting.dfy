/** How deep values may be nested, told from their shape alone. */
module TomlNesting {
  import opened TomlDocument
  import opened TomlRedefinition

  function Max(a: nat, b: nat): nat { if a < b then b else a }

  /** A scalar is one deep; an array and an inline table are one deeper than what they hold. */
  function Depth(value: Syntax): nat
    decreases value, 1
  {
    match value
    case ScalarSyntax(_) => 1
    case ArraySyntax(items) => 1 + DeepestItem(items)
    case InlineSyntax(entries) => 1 + DeepestEntry(entries)
  }

  function DeepestItem(items: seq<Syntax>): nat
    decreases items, 0
  {
    if items == [] then 0 else Max(Depth(items[0]), DeepestItem(items[1..]))
  }

  function DeepestEntry(entries: seq<Entry>): nat
    decreases entries, 0
  {
    if entries == [] then 0 else Max(Depth(entries[0].value), DeepestEntry(entries[1..]))
  }

  /** No key is another one or the beginning of another one. */
  predicate NoneLeadsTo(entries: seq<Entry>) {
    forall i, j :: 0 <= i < |entries| && 0 <= j < |entries| && i != j ==> !(entries[i].key <= entries[j].key)
  }

  /** So it is in every inline table of the value, at any depth. */
  predicate KeysApart(value: Syntax) {
    match value
    case ScalarSyntax(_) => true
    case ArraySyntax(items) => forall i :: 0 <= i < |items| ==> KeysApart(items[i])
    case InlineSyntax(entries) =>
      NoneLeadsTo(entries) && forall i :: 0 <= i < |entries| ==> KeysApart(entries[i].value)
  }

  lemma {:induction false} ItemsDepth(items: seq<Syntax>, limit: nat)
    ensures DeepestItem(items) <= limit <==> forall i :: 0 <= i < |items| ==> Depth(items[i]) <= limit
  {
    if items != [] {
      ItemsDepth(items[1..], limit);
      assert forall i :: 0 < i < |items| ==> items[i] == items[1..][i - 1];
    }
  }

  lemma {:induction false} EntriesDepth(entries: seq<Entry>, limit: nat)
    ensures DeepestEntry(entries) <= limit <==> forall i :: 0 <= i < |entries| ==> Depth(entries[i].value) <= limit
  {
    if entries != [] {
      EntriesDepth(entries[1..], limit);
      assert forall i :: 0 < i < |entries| ==> entries[i] == entries[1..][i - 1];
    }
  }

  /** The value of the i-th entry is accepted, and its key is apart from those before it. */
  predicate Alone(entries: seq<Entry>, i: nat, nested: nat)
    requires i < |entries|
  {
    && ValueAllowed(entries[i].value, nested)
    && forall j :: 0 <= j < i ==> !(entries[i].key <= entries[j].key) && !(entries[j].key <= entries[i].key)
  }

  lemma {:induction false} EntriesOneByOne(entries: seq<Entry>, n: nat, nested: nat)
    requires n <= |entries|
    ensures EntriesAllowed(entries, n, nested) <==> forall i :: 0 <= i < n ==> Alone(entries, i, nested)
  {
    if n > 0 {
      EntriesOneByOne(entries, n - 1, nested);
      assert EntryAllowed(entries, n - 1, nested) <==> Alone(entries, n - 1, nested);
      assert EntriesAllowed(entries, n, nested)
             <==> EntriesAllowed(entries, n - 1, nested) && EntryAllowed(entries, n - 1, nested);
    }
  }

  lemma {:induction false} EntriesApart(entries: seq<Entry>, nested: nat)
    ensures EntriesAllowed(entries, |entries|, nested)
            <==> NoneLeadsTo(entries) && forall i :: 0 <= i < |entries| ==> ValueAllowed(entries[i].value, nested)
  {
    EntriesOneByOne(entries, |entries|, nested);
    if forall i :: 0 <= i < |entries| ==> Alone(entries, i, nested) {
      forall i, j | 0 <= i < |entries| && 0 <= j < |entries| && i != j ensures !(entries[i].key <= entries[j].key) {
        assert Alone(entries, if i < j then j else i, nested);
      }
      forall i | 0 <= i < |entries| ensures ValueAllowed(entries[i].value, nested) {
        assert Alone(entries, i, nested);
      }
    }
  }

  /** A value inside `nested` others is accepted exactly when it goes no deeper than 256, and its keys are apart. */
  lemma {:induction false} AllowedIsShallow(value: Syntax, nested: nat)
    ensures ValueAllowed(value, nested) <==> nested + Depth(value) <= 256 && KeysApart(value)
    decreases value
  {
    match value
    case ScalarSyntax(_) =>
    case ArraySyntax(items) =>
      forall i | 0 <= i < |items|
        ensures ValueAllowed(items[i], nested + 1) <==> nested + 1 + Depth(items[i]) <= 256 && KeysApart(items[i])
      {
        AllowedIsShallow(items[i], nested + 1);
      }
      if nested < 256 { ItemsDepth(items, 255 - nested); }
    case InlineSyntax(entries) =>
      forall i | 0 <= i < |entries|
        ensures ValueAllowed(entries[i].value, nested + 1)
                <==> nested + 1 + Depth(entries[i].value) <= 256 && KeysApart(entries[i].value)
      {
        AllowedIsShallow(entries[i].value, nested + 1);
      }
      if nested < 256 { EntriesDepth(entries, 255 - nested); }
      EntriesApart(entries, nested + 1);
  }

  /** A document of one key/value statement is accepted if and only if its value is at most 256 deep and the keys of
      its inline tables are apart. */
  lemma {:induction false} OneStatement(key: seq<string>, value: Syntax)
    requires key != [] && WellKeyed([KeyValue(key, value)])
    ensures DocumentAllowed([KeyValue(key, value)]) <==> Depth(value) <= 256 && KeysApart(value)
  {
    var document := [KeyValue(key, value)];
    AllowedIsShallow(value, 0);
    assert DocumentAllowed(document) <==> StatementAllowed(DefinedBy(document, 0), document[0]);
  }

  /** What the statement names may be defined, whatever its value is. */
  predicate PlaceFits(statements: seq<Statement>, i: nat)
    requires WellKeyed(statements) && i < |statements|
  {
    var m := DefinedBy(statements, i);
    match statements[i]
    case Header(key, isArray) => HeaderFits(m.known, key, isArray)
    case KeyValue(key, _) => KeyFits(m.known, m.current, key)
  }

  predicate ValueFits(statement: Statement) {
    statement.KeyValue? ==> Depth(statement.value) <= 256 && KeysApart(statement.value)
  }

  /** In any document that is all the values have to do with it. */
  lemma {:induction false} ManyStatements(statements: seq<Statement>)
    requires WellKeyed(statements)
    ensures DocumentAllowed(statements)
            <==> forall i :: 0 <= i < |statements| ==> PlaceFits(statements, i) && ValueFits(statements[i])
  {
    forall i | 0 <= i < |statements|
      ensures StatementAllowed(DefinedBy(statements, i), statements[i])
              <==> PlaceFits(statements, i) && ValueFits(statements[i])
    {
      if statements[i].KeyValue? { AllowedIsShallow(statements[i].value, 0); }
    }
  }

  /** A number inside `depth - 1` arrays. */
  function Nested(depth: nat): Syntax
    requires depth > 0
  {
    if depth == 1 then ScalarSyntax(1) else ArraySyntax([Nested(depth - 1)])
  }

  lemma {:induction false} NestedDepth(depth: nat)
    requires depth > 0
    ensures Depth(Nested(depth)) == depth && KeysApart(Nested(depth)) && KeysNonEmpty(Nested(depth))
  {
    if depth > 1 {
      NestedDepth(depth - 1);
      assert DeepestItem([Nested(depth - 1)]) == Max(depth - 1, DeepestItem([Nested(depth - 1)][1..]));
    }
  }

  /** Arrays may be nested so that the number inside is the 256th value, and no deeper. */
  lemma {:induction false} DeepestDocument(key: seq<string>, depth: nat)
    requires key != [] && depth > 0
    ensures KeysNonEmpty(Nested(depth)) && (DocumentAllowed([KeyValue(key, Nested(depth))]) <==> depth <= 256)
  {
    NestedDepth(depth);
    OneStatement(key, Nested(depth));
  }

  lemma {:induction false} DepthAtTheEdge()
    ensures KeysNonEmpty(Nested(256)) && DocumentAllowed([KeyValue(["a"], Nested(256))])
    ensures KeysNonEmpty(Nested(257)) && !DocumentAllowed([KeyValue(["a"], Nested(257))])
  {
    DeepestDocument(["a"], 256);
    DeepestDocument(["a"], 257);
  }
}
