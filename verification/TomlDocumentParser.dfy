/** The document parser: the loops that walk table headers and dotted keys, read values, and run over a
    whole document, with the lists of tables it keeps. */
module TomlDocumentParser {
  import opened TomlTree
  import opened TomlDocument
  import opened TomlRedefinition
  import opened Wrappers

  const EMPTY_DOCUMENT := Doc([Table(map[], false)], [], [], [], [])

  class Parser {
    var doc: Doc
    var currentTable: Id

    /** Nodes inside finished values, and the tables returned by `[header]` and `[[header]]`. */
    ghost var frozen: set<Id>
    ghost var openedTables: seq<Id>

    ghost predicate Valid()
      reads this
    {
      && Inv(doc, frozen) && doc.openInlineTables == []
      && IsOpenTable(doc, currentTable) && currentTable !in frozen
      && Apart(doc, openedTables)
    }

    constructor ()
      ensures Valid() && doc == EMPTY_DOCUMENT && currentTable == ROOT && openedTables == [] && frozen == {}
    {
      doc := EMPTY_DOCUMENT;
      currentTable := ROOT;
      frozen, openedTables := {}, [];
      new;
      assert PointsForward(doc, ROOT) && Seals(doc, ROOT, frozen);
    }

    /** One existing segment: the table or array of tables it names. */
    method Descend(p: Id) returns (ok: bool, next: Id)
      requires Valid() && p < |doc.nodes| && (p in frozen ==> !IsOpenTable(doc, p))
      ensures ok <==> match doc.nodes[p]
                      case Table(_, isInline) => !isInline || p in doc.openInlineTables
                      case Array(_) => p in doc.tableArrays
                      case Scalar(_) => false
      ensures ok ==> IsOpenTable(doc, next) && next !in frozen
      ensures ok && doc.nodes[p].Table? ==> next == p
      ensures ok && doc.nodes[p].Array?
              ==> doc.nodes[p].elems != [] && next == doc.nodes[p].elems[|doc.nodes[p].elems| - 1]
    {
      match doc.nodes[p]
      case Table(_, isInline) =>
        ok, next := !isInline || p in doc.openInlineTables, p;
      case Array(elems) =>
        if p !in doc.tableArrays { return false, p; }
        assert IsTableArray(doc, p, frozen);
        ok, next := true, elems[|elems| - 1];
      case Scalar(_) =>
        ok, next := false, p;
    }

    /** What the walk keeps: before the first missing segment nothing has been created; after
        it, the walk stands on an empty table of its own. */
    ghost predicate Walking(before: Doc, front: seq<string>, i: nat, parent: Id, path: seq<Step>)
      requires i <= |front|
      reads this
    {
      && Valid() && Extends(before, doc) && FrozenUnchanged(before, doc, frozen)
      && IsOpenTable(doc, parent) && parent !in frozen && OnTheWay(before, doc, front, i, parent, path)
      && OnlyImplicit(before, doc)
      && var walk := HeaderWalk(before, ROOT, front);
         || (doc == before && walk == HeaderWalk(before, parent, front[i..]))
         || (&& parent >= |before.nodes| && doc.nodes[parent] == Table(map[], false)
             && walk.Reached? && walk.missing != [])
    }

    method StepExisting(ghost before: Doc, front: seq<string>, i: nat, parent: Id, ghost path: seq<Step>)
      returns (ok: bool, next: Id, ghost nextPath: seq<Step>)
      requires i < |front| && Walking(before, front, i, parent, path) && front[i] in doc.nodes[parent].children
      ensures if ok then Walking(before, front, i + 1, next, nextPath)
              else doc == before && HeaderWalk(before, ROOT, front) == Blocked
    {
      var p := doc.nodes[parent].children[front[i]];
      ChildFacts(doc, frozen, parent, front[i]);
      hide PointsForward, Seals, IsTableArray, NodeExtends, OnTheWay, OnlyImplicit;
      assert front[i..][0] == front[i] && front[i..][1..] == front[i + 1..];
      nextPath := path;
      ok, next := Descend(p);
      if !ok { return; }
      if doc.nodes[p].Table? {
        WayThroughTable(doc, front, i, parent, path, p);
        nextPath := path + [Key(front[i])];
      } else {
        WayThroughArray(doc, front, i, parent, path, p);
        nextPath := path + [Key(front[i]), Index(|doc.nodes[p].elems| - 1)];
      }
    }

    method StepMissing(ghost before: Doc, front: seq<string>, i: nat, parent: Id, ghost path: seq<Step>)
      returns (next: Id, ghost nextPath: seq<Step>)
      requires i < |front| && Walking(before, front, i, parent, path) && front[i] !in doc.nodes[parent].children
      modifies this`doc
      ensures Walking(before, front, i + 1, next, nextPath)
    {
      hide PointsForward, Seals, IsTableArray, NodeExtends, OnTheWay, Unshared, OnlyImplicit, Apart, LinksFresh;
      ghost var prior := doc;
      ImplicitStep(before, doc, frozen, parent, front[i]);
      NothingMade(doc, frozen);
      ImplicitStep(doc, doc, frozen, parent, front[i]);
      ApartOnTheWay(doc, NewImplicit(doc, parent, front[i]), frozen, openedTables);
      NewImplicitKeeps(doc, frozen, parent, front[i]);
      next := |doc.nodes|;
      nextPath := path + [Key(front[i])];
      doc := NewImplicit(doc, parent, front[i]);
      assert front[i..][0] == front[i];
      ExtendsTransitive(before, prior, doc);
      InvIsForward(doc, frozen);
      WayThroughNew(before, prior, doc, front, i, parent, path, next);
    }

    /** Walks down to the table that holds the last segment, creating implicit tables. */
    method FindParent(front: seq<string>) returns (ok: bool, parent: Id, ghost path: seq<Step>)
      requires Valid()
      modifies this`doc
      ensures ok <==> HeaderWalk(old(doc), ROOT, front) != Blocked
      ensures !ok ==> doc == old(doc)
      ensures ok ==> Valid() && Extends(old(doc), doc) && FrozenUnchanged(old(doc), doc, frozen)
      ensures ok ==>
                IsOpenTable(doc, parent) && parent !in frozen && OnTheWay(old(doc), doc, front, |front|, parent, path)
      ensures ok ==> OnlyImplicit(old(doc), doc)
      ensures ok ==> match HeaderWalk(old(doc), ROOT, front)
                     case Blocked => false
                     case Reached(at, missing) =>
                       if missing == [] then doc == old(doc) && parent == at
                       else parent >= |old(doc).nodes| && doc.nodes[parent] == Table(map[], false)
    {
      parent, path := ROOT, [];
      ghost var before := doc;
      ExtendsReflexive(before);
      WayStarts(doc, frozen, front);
      NothingMade(doc, frozen);
      assert front[0..] == front;
      var i := 0;
      hide OnTheWay, OnlyImplicit;
      while i < |front|
        invariant i <= |front| && Walking(before, front, i, parent, path)
      {
        if front[i] in doc.nodes[parent].children {
          ok, parent, path := StepExisting(before, front, i, parent, path);
          if !ok { return; }
        } else {
          parent, path := StepMissing(before, front, i, parent, path);
        }
        i := i + 1;
      }
      assert front[|front|..] == [];
      ok := true;
    }

    /** The last segment names a node that is already there; nothing has been created on the way. */
    method OpenExisting(parent: Id, key: seq<string>, isArray: bool, ghost path: seq<Step>) returns (ok: bool)
      requires Valid() && IsOpenTable(doc, parent) && key != [] && key[|key| - 1] in doc.nodes[parent].children
      requires OnTheWay(doc, doc, key[..|key| - 1], |key| - 1, parent, path)
      requires doc.nodes[parent].children[key[|key| - 1]] < |doc.nodes|
      modifies this
      ensures ok <==> var m := old(doc).nodes[parent].children[key[|key| - 1]];
                      if isArray then old(doc).nodes[m].Array? && m in old(doc).tableArrays else MayPromote(old(doc), m)
      ensures !ok ==> doc == old(doc)
      ensures ok ==> Opened(old(doc), doc, key, isArray)
      ensures ok ==> frozen == old(frozen) && openedTables == old(openedTables) + [currentTable]
    {
      var m := doc.nodes[parent].children[key[|key| - 1]];
      hide HeaderMeans, OnTheWay, Unshared, Apart, HeaderRecords, Seals, PointsForward, IsTableArray, Extends, Opened;
      if isArray && doc.nodes[m].Array? && m in doc.tableArrays {
        AddElement(parent, key, m, path);
      } else if !isArray && MayPromote(doc, m) {
        Promote(parent, key, m, path);
      } else {
        return false;
      }
      ok := true;
    }

    /** What an accepted header has done. */
    ghost predicate Opened(before: Doc, now: Doc, key: seq<string>, isArray: bool)
      requires key != []
      reads this
    {
      && Valid() && now == doc && Extends(before, now) && FrozenUnchanged(before, now, frozen)
      && HeaderMeans(before, now, key, isArray, currentTable) && HeaderRecords(before, now, currentTable)
      && (isArray ==> currentTable >= |before.nodes| && now.nodes[currentTable] == Table(map[], false))
    }

    /** One more table of an array of tables. */
    method AddElement(ghost parent: Id, ghost key: seq<string>, m: Id, ghost path: seq<Step>)
      requires Valid() && key != [] && m < |doc.nodes| && doc.nodes[m].Array? && m in doc.tableArrays
      requires OnTheWay(doc, doc, key[..|key| - 1], |key| - 1, parent, path)
      requires Child(doc.nodes, parent, Key(key[|key| - 1])) == Some(m)
      modifies this
      ensures Opened(old(doc), doc, key, true)
      ensures frozen == old(frozen) && openedTables == old(openedTables) + [currentTable]
    {
      hide HeaderMeans, OnTheWay, Unshared, Apart, HeaderRecords, Seals, PointsForward, IsTableArray, Extends;
      ghost var prior := doc;
      NewElementKeeps(doc, frozen, m);
      NewElementRecords(doc, frozen, m);
      currentTable := |doc.nodes|;
      doc := NewElement(doc, m);
      InvIsForward(doc, frozen);
      NewElementMeans(prior, doc, parent, path, key, m);
      ApartAfterHeader(prior, doc, frozen, openedTables, currentTable);
      openedTables := openedTables + [currentTable];
    }

    /** An implicit table becomes the table of a header. */
    method Promote(ghost parent: Id, ghost key: seq<string>, m: Id, ghost path: seq<Step>)
      requires Valid() && key != [] && m in doc.implicitTables
      requires OnTheWay(doc, doc, key[..|key| - 1], |key| - 1, parent, path)
      requires Child(doc.nodes, parent, Key(key[|key| - 1])) == Some(m)
      modifies this
      ensures Opened(old(doc), doc, key, false)
      ensures frozen == old(frozen) && openedTables == old(openedTables) + [currentTable]
    {
      hide HeaderMeans, OnTheWay, Unshared, Apart, HeaderRecords, Seals, PointsForward, IsTableArray, Extends;
      ghost var prior := doc;
      PromoteKeeps(doc, frozen, m);
      PromotedRecords(doc, frozen, m);
      doc := doc.(implicitTables := Without(doc.implicitTables, m));
      currentTable := m;
      PromotedMeans(prior, doc, parent, path, key, m);
      ApartAfterHeader(prior, doc, frozen, openedTables, currentTable);
      openedTables := openedTables + [currentTable];
    }

    /** The last segment is new. */
    method OpenNew(ghost before: Doc, parent: Id, key: seq<string>, isArray: bool, ghost path: seq<Step>)
      requires Valid() && IsOpenTable(doc, parent) && parent !in frozen && key != []
      requires key[|key| - 1] !in doc.nodes[parent].children
      requires Extends(before, doc) && OnTheWay(before, doc, key[..|key| - 1], |key| - 1, parent, path)
      modifies this
      ensures Valid() && frozen == old(frozen)
      ensures Extends(old(doc), doc) && FrozenUnchanged(old(doc), doc, frozen)
      ensures HeaderMeans(before, doc, key, isArray, currentTable) && HeaderRecords(old(doc), doc, currentTable)
      ensures openedTables == old(openedTables) + [currentTable]
      ensures currentTable >= |old(doc).nodes| && doc.nodes[currentTable] == Table(map[], false)
    {
      hide PointsForward, Seals, IsTableArray, NodeExtends, HeaderMeans, OnTheWay, Unshared, HeaderRecords, Apart,
        Extends;
      ghost var prior := doc;
      var last, added := key[|key| - 1], |doc.nodes|;
      if isArray {
        NewTableArrayKeeps(doc, frozen, parent, last);
        NewArrayRecords(doc, frozen, parent, last);
        doc := NewTableArray(doc, parent, last);
        currentTable := added + 1;
        InvIsForward(doc, frozen);
        NewArrayMeans(before, prior, doc, parent, path, key);
      } else {
        NewChildKeeps(doc, frozen, parent, last);
        NewTableRecords(doc, frozen, parent, last);
        doc := NewChild(doc, parent, last, Table(map[], false));
        currentTable := added;
        InvIsForward(doc, frozen);
        NewTableMeans(before, prior, doc, parent, path, key);
      }
      ApartAfterHeader(prior, doc, frozen, openedTables, currentTable);
      openedTables := openedTables + [currentTable];
    }

    /** `parse_table_header`: accepted exactly when `HeaderAllowed` says so. */
    method ParseTableHeader(key: seq<string>, isArray: bool) returns (ok: bool)
      requires Valid() && key != []
      modifies this
      ensures ok <==> HeaderAllowed(old(doc), key, isArray)
      ensures !ok ==> doc == old(doc)
      ensures ok ==> Valid() && frozen == old(frozen)
      ensures ok ==> Extends(old(doc), doc) && FrozenUnchanged(old(doc), doc, frozen)
      ensures ok ==>
                HeaderMeans(old(doc), doc, key, isArray, currentTable) && HeaderRecords(old(doc), doc, currentTable)
      ensures ok ==> openedTables == old(openedTables) + [currentTable]
      ensures ok && isArray ==> currentTable >= |old(doc).nodes| && doc.nodes[currentTable] == Table(map[], false)
    {
      ghost var before := doc;
      var front, last := key[..|key| - 1], key[|key| - 1];
      assert key == front + [last];
      hide HeaderMeans, OnTheWay, Unshared, HeaderRecords, OnlyImplicit, Apart, Seals, IsTableArray;
      var parent;
      ghost var path;
      ok, parent, path := FindParent(front);
      if !ok { return; }
      ghost var prior := doc;
      assert PointsForward(doc, parent);
      if last in doc.nodes[parent].children {
        ok := OpenExisting(parent, key, isArray, path);
        if !ok { return; }
      } else {
        OpenNew(before, parent, key, isArray, path);
      }
      hide PointsForward, NodeExtends;
      RecordsThen(before, prior, doc, frozen, currentTable);
      ExtendsTransitive(before, prior, doc);
    }

    /** The first part of `parse_key_value_pair_and_insert`: the tables of a dotted key. */
    method FindDotted(tbl: Id, front: seq<string>, ghost base: Id, ghost path: seq<Step>) returns (ok: bool, at: Id)
      requires Inv(doc, frozen) && tbl < |doc.nodes| && doc.nodes[tbl].Table? && tbl !in frozen
      requires base < |doc.nodes| && Resolve(doc.nodes, base, path) == Some(tbl)
      modifies this`doc
      ensures ok <==> DottedWalk(old(doc), tbl, front) != Blocked
      ensures ok ==> DottedAt(old(doc), doc, frozen, tbl, front, |front|, at, base, path)
    {
      ghost var before := doc;
      DottedStarts(doc, frozen, tbl, front, base, path);
      at := tbl;
      hide *;
      for i := 0 to |front|
        invariant DottedAt(before, doc, frozen, tbl, front, i, at, base, path)
      {
        var d := doc;
        DottedStandsOnTable(before, d, frozen, tbl, front, i, at, base, path);
        if front[i] in d.nodes[at].children {
          var next := d.nodes[at].children[front[i]];
          DottedEnters(before, d, frozen, tbl, front, i, at, base, path);
          ok := MayEnter(d, next);
          if !ok { return; }
          at := next;
        } else {
          DottedMakes(before, d, frozen, tbl, front, i, at, base, path);
          doc, at := NewDotted(d, at, front[i]), |d.nodes|;
        }
      }
      DottedArrives(before, doc, frozen, tbl, front, at, base, path);
      ok := true;
    }

    /** `parse_value`: reads a value into new nodes. */
    method ParseValue(value: Syntax, nested: nat) returns (ok: bool, id: Id)
      requires Inv(doc, frozen) && KeysNonEmpty(value)
      modifies this`doc, this`frozen
      ensures ok ==> Inv(doc, frozen) && ValueFrame(old(doc), doc) && FrozenGrew(old(frozen), frozen, |old(doc).nodes|)
      ensures ok ==> Recorded(old(doc), doc)
      ensures ok ==> id == |old(doc).nodes| < |doc.nodes| && Denotes(doc, id, value) && !IsOpenTable(doc, id)
      ensures ok ==> Stands(doc.nodes, id, ValueTree(value))
      ensures ok <==> ValueAllowed(value, nested)
      decreases value, 1
    {
      id := |doc.nodes|;
      if nested + 1 > MAX_NESTED_VALUES { return false, id; }
      match value
      case ScalarSyntax(v) =>
        AppendKeeps(doc, frozen, Scalar(v));
        RecordedNothing(doc, Append(doc, Scalar(v)), frozen, Scalar(v));
        doc := Append(doc, Scalar(v));
        InvIsForward(doc, frozen);
        ok := true;
      case ArraySyntax(items) =>
        ok := ParseArray(items, nested + 1);
      case InlineSyntax(entries) =>
        ok := ParseInlineTable(entries, nested + 1);
    }

    method ParseArray(items: seq<Syntax>, nested: nat) returns (ok: bool)
      requires Inv(doc, frozen) && forall i :: 0 <= i < |items| ==> KeysNonEmpty(items[i])
      modifies this`doc, this`frozen
      ensures ok <==> forall i :: 0 <= i < |items| ==> ValueAllowed(items[i], nested)
      ensures ok ==> Inv(doc, frozen) && ValueFrame(old(doc), doc) && FrozenGrew(old(frozen), frozen, |old(doc).nodes|)
      ensures ok ==> Recorded(old(doc), doc)
      ensures ok ==> |old(doc).nodes| < |doc.nodes| && Denotes(doc, |old(doc).nodes|, ArraySyntax(items))
      ensures ok ==> Stands(doc.nodes, |old(doc).nodes|, ValueTree(ArraySyntax(items)))
      decreases items, 0
    {
      ghost var before, f := doc, frozen;
      var arr := |doc.nodes|;
      AppendKeeps(doc, frozen, Array([]));
      RecordedNothing(doc, Append(doc, Array([])), frozen, Array([]));
      doc := Append(doc, Array([]));
      InvIsForward(doc, frozen);
      hide Unshared, Stands;
      EmptyArrayStands(doc.nodes, arr);
      assert items[..0] == [] && ItemTrees([]) == [];
      for i := 0 to |items|
        invariant ReadingArray(before, f, items, i)
        invariant forall j :: 0 <= j < i ==> ValueAllowed(items[j], nested)
      {
        ok := ParseItem(arr, before, f, items, i, nested);
        if !ok { return; }
      }
      assert items[..|items|] == items;
      ok := true;
    }

    ghost predicate ReadingArray(before: Doc, f: set<Id>, items: seq<Syntax>, i: nat)
      requires i <= |items|
      reads this
    {
      && Inv(doc, frozen) && ValueFrame(before, doc) && FrozenGrew(f, frozen, |before.nodes| + 1)
      && Recorded(before, doc)
      && var arr := |before.nodes|;
         && arr < |doc.nodes| && arr !in frozen && arr !in doc.tableArrays
         && doc.nodes[arr].Array? && |doc.nodes[arr].elems| == i
         && Stands(doc.nodes, arr, List(ItemTrees(items[..i])))
         && forall j :: 0 <= j < i ==> Denotes(doc, doc.nodes[arr].elems[j], items[j])
    }

    method ParseItem(arr: Id, ghost before: Doc, ghost f: set<Id>, items: seq<Syntax>, i: nat, nested: nat)
      returns (ok: bool)
      requires i < |items| && KeysNonEmpty(items[i]) && ReadingArray(before, f, items, i) && arr == |before.nodes|
      modifies this`doc, this`frozen
      ensures ok <==> ValueAllowed(items[i], nested)
      ensures ok ==> ReadingArray(before, f, items, i + 1)
      decreases items[i], 2
    {
      ghost var prior, f0 := doc, frozen;
      var id;
      ok, id := ParseValue(items[i], nested);
      if !ok { return; }
      ghost var read := doc;
      hide Unshared, Stands;
      ValueIsUnlinked(prior, read, f0, frozen);
      AddItemKeeps(doc, frozen, arr, id);
      doc := AddItem(doc, arr, id);
      InvIsForward(doc, frozen);
      RecordedItem(before, prior, read, arr, id);
      ItemStands(prior, read, doc, arr, id, items, i);
      ItemsSurvive(prior, read, doc, arr, id, items, i);
    }

    /** `parse_key_value_pair_and_insert`: dotted tables, the redefinition check, the value, and
        the insertion. */
    method InsertInto(tbl: Id, key: seq<string>, value: Syntax, nested: nat, ghost base: Id, ghost path: seq<Step>)
      returns (ok: bool)
      requires Inv(doc, frozen) && tbl < |doc.nodes| && doc.nodes[tbl].Table? && tbl !in frozen
      requires key != [] && KeysNonEmpty(value)
      requires base < |doc.nodes| && Resolve(doc.nodes, base, path) == Some(tbl)
      modifies this`doc, this`frozen
      ensures ok ==> Puts(old(doc).nodes, doc.nodes, base, path + Keys(key), ValueTree(value))
      ensures ok <==> InsertAllowed(old(doc), tbl, key) && ValueAllowed(value, nested)
      ensures ok ==>
                PartsPass(doc, tbl, key) && old(doc).dottedKeyTables <= doc.dottedKeyTables && Recorded(old(doc), doc)
      ensures ok ==> Inv(doc, frozen) && Extends(old(doc), doc) && InsertFrame(old(doc), doc, tbl)
      ensures ok ==> FrozenUnchanged(old(doc), doc, old(frozen)) && FrozenGrew(old(frozen), frozen, |old(doc).nodes|)
      ensures ok ==> tbl < |doc.nodes| && tbl !in frozen && DenotesEntry(doc, tbl, key, value)
      decreases value, 3
    {
      ghost var before := doc;
      var front, last := key[..|key| - 1], key[|key| - 1];
      assert key == front + [last];
      var at;
      ok, at := FindDotted(tbl, front, base, path);
      if !ok { return; }
      assert front[..|front|] == front && front[|front|..] == [];
      if last in doc.nodes[at].children { return false; }
      hide *;
      ok := StoreValue(before, tbl, at, key, value, nested, base, path);
    }

    /** The second part: the value, and its insertion under the last segment. */
    method StoreValue(ghost before: Doc, ghost tbl: Id, at: Id, key: seq<string>, value: Syntax, nested: nat,
                      ghost base: Id, ghost path: seq<Step>) returns (ok: bool)
      requires key != [] && KeysNonEmpty(value) && tbl !in frozen
      requires DottedAt(before, doc, frozen, tbl, key[..|key| - 1], |key| - 1, at, base, path)
      requires key[|key| - 1] !in doc.nodes[at].children
      modifies this`doc, this`frozen
      ensures ok ==> Puts(before.nodes, doc.nodes, base, path + Keys(key), ValueTree(value))
      ensures ok <==> ValueAllowed(value, nested)
      ensures ok ==> PartsPass(doc, tbl, key) && Recorded(before, doc)
      ensures ok ==> Inv(doc, frozen) && Extends(before, doc) && InsertFrame(before, doc, tbl)
      ensures ok ==> FrozenUnchanged(before, doc, old(frozen)) && FrozenGrew(old(frozen), frozen, |before.nodes|)
      ensures ok ==> tbl < |doc.nodes| && tbl !in frozen && DenotesEntry(doc, tbl, key, value)
      decreases value, 2
    {
      ghost var prior, f := doc, frozen;
      hide *;
      DottedFound(before, prior, f, tbl, key, at, base, path);
      var id;
      ok, id := ParseValue(value, nested);
      if !ok { return; }
      ValueIsSealed(before, prior, doc, f, frozen, tbl, at, key, id, value, base, path);
      frozen := frozen + Range(|prior.nodes|, |doc.nodes|);
      doc := Attach(doc, at, key[|key| - 1], id);
    }

    /** `parse_inline_table`: the same insertion, into a table that is open only meanwhile. */
    method ParseInlineTable(entries: seq<Entry>, nested: nat) returns (ok: bool)
      requires Inv(doc, frozen)
      requires forall i :: 0 <= i < |entries| ==> entries[i].key != [] && KeysNonEmpty(entries[i].value)
      modifies this`doc, this`frozen
      ensures ok <==> EntriesAllowed(entries, |entries|, nested)
      ensures ok ==> Inv(doc, frozen) && ValueFrame(old(doc), doc) && FrozenGrew(old(frozen), frozen, |old(doc).nodes|)
      ensures ok ==> Recorded(old(doc), doc)
      ensures ok ==> |old(doc).nodes| < |doc.nodes| && Denotes(doc, |old(doc).nodes|, InlineSyntax(entries))
      ensures ok ==> Stands(doc.nodes, |old(doc).nodes|, ValueTree(InlineSyntax(entries)))
      decreases entries, 0
    {
      ghost var before, f := doc, frozen;
      var tbl := |doc.nodes|;
      hide *;
      InlineStarts(doc, frozen, entries);
      NoneRefused(entries, nested);
      doc := Append(doc, Table(map[], true)).(openInlineTables := doc.openInlineTables + [tbl]);
      for i := 0 to |entries|
        invariant ReadingInline(before, doc, f, frozen, entries, i)
        invariant EntriesAllowed(entries, i, nested)
      {
        ok := ParseEntry(tbl, before, f, entries, i, nested);
        OneMoreAllowed(entries, i, nested);
        if !ok { return; }
      }
      InlineIsRead(before, doc, f, frozen, entries);
      doc := doc.(openInlineTables := doc.openInlineTables[..|doc.openInlineTables| - 1]);
      ok := true;
    }

    method ParseEntry(tbl: Id, ghost before: Doc, ghost f: set<Id>, entries: seq<Entry>, i: nat, nested: nat)
      returns (ok: bool)
      requires i < |entries| && (forall j :: 0 <= j <= i ==> entries[j].key != []) && KeysNonEmpty(entries[i].value)
      requires ReadingInline(before, doc, f, frozen, entries, i) && tbl == |before.nodes|
      modifies this`doc, this`frozen
      ensures ok <==> EntryAllowed(entries, i, nested)
      ensures ok ==> ReadingInline(before, doc, f, frozen, entries, i + 1)
      decreases entries[i].value, 4
    {
      ghost var prior := doc;
      hide *;
      InlineIsOpen(before, prior, f, frozen, entries, i);
      ok := InsertInto(tbl, entries[i].key, entries[i].value, nested, tbl, []);
      EntryAllowedHere(prior, tbl, entries, i, nested);
      if !ok { return; }
      InlineContinues(before, prior, doc, f, old(frozen), frozen, entries, i);
    }

    method ParseKeyValue(key: seq<string>, value: Syntax, ghost path: seq<Step>) returns (ok: bool)
      requires Valid() && key != [] && KeysNonEmpty(value) && Resolve(doc.nodes, ROOT, path) == Some(currentTable)
      modifies this`doc, this`frozen
      ensures ok <==> InsertAllowed(old(doc), currentTable, key) && ValueAllowed(value, 0)
      ensures ok ==> Valid() && Extends(old(doc), doc) && FrozenUnchanged(old(doc), doc, old(frozen))
      ensures ok ==> DenotesEntry(doc, currentTable, key, value)
      ensures ok ==> Recorded(old(doc), doc) && PartsPass(doc, currentTable, key)
      ensures ok ==> Puts(old(doc).nodes, doc.nodes, ROOT, path + Keys(key), ValueTree(value))
      ensures ok ==> InsertFrame(old(doc), doc, currentTable)
    {
      ghost var before := doc;
      ok := InsertInto(currentTable, key, value, 0, ROOT, path);
      if ok {
        StaysOpen(before, doc, currentTable);
        ApartAfterKeyValue(before, doc, old(frozen), openedTables);
      }
    }

    ghost predicate Running(statements: seq<Statement>, n: nat, paths: seq<seq<Step>>, currentPath: seq<Step>)
      requires n <= |statements| && WellKeyed(statements)
      reads this
    {
      Valid() && RunsTo(doc, currentTable, statements, n, paths, currentPath) && Tracks(doc, statements, n)
    }

    method RunHeader(statements: seq<Statement>, n: nat, ghost paths: seq<seq<Step>>, ghost currentPath: seq<Step>)
      returns (ok: bool, ghost nextPath: seq<Step>)
      requires n < |statements| && statements[n].Header? && WellKeyed(statements)
      requires Running(statements, n, paths, currentPath)
      modifies this
      ensures ok <==> StatementAllowed(DefinedBy(statements, n), statements[n])
      ensures ok ==> Running(statements, n + 1, paths + [[]], nextPath)
    {
      ghost var before := doc;
      AllPointForward(doc, frozen);
      nextPath := currentPath;
      hide *;
      HeaderIsAllowed(doc, statements, n);
      ok := ParseTableHeader(statements[n].key, statements[n].isArray);
      if !ok { return; }
      nextPath := HeaderRuns(before, doc, currentTable, statements, n, paths, currentPath);
      HeaderTracks(before, doc, frozen, statements, n, currentTable);
    }

    method RunKeyValue(statements: seq<Statement>, n: nat, ghost paths: seq<seq<Step>>, ghost currentPath: seq<Step>)
      returns (ok: bool, ghost path: seq<Step>)
      requires n < |statements| && statements[n].KeyValue? && WellKeyed(statements)
      requires Running(statements, n, paths, currentPath)
      modifies this
      ensures ok <==> StatementAllowed(DefinedBy(statements, n), statements[n])
      ensures ok ==> Running(statements, n + 1, paths + [path], currentPath)
    {
      ghost var before, f := doc, frozen;
      AllPointForward(doc, frozen);
      RunStandsAt(doc, currentTable, statements, n, paths, currentPath);
      path := currentPath + Keys(statements[n].key);
      hide *;
      KeyIsAllowed(doc, statements, n, currentTable);
      ok := ParseKeyValue(statements[n].key, statements[n].value, currentPath);
      if !ok { return; }
      KeyValueRuns(before, doc, currentTable, statements, n, paths, currentPath);
      KeyValueTracks(before, doc, f, frozen, statements, n, currentTable);
    }

    /** `parse_document`: it accepts exactly the documents whose statements respect what was defined before them;
        the document is then the tree the statements mean, it holds every value at the path made of its header
        and its key, no two of them at the same path, and no table was opened twice. */
    method ParseDocument(statements: seq<Statement>) returns (ok: bool, ghost paths: seq<seq<Step>>)
      requires Valid() && doc == EMPTY_DOCUMENT && currentTable == ROOT && frozen == {} && openedTables == []
      requires WellKeyed(statements)
      modifies this
      ensures ok <==> DocumentAllowed(statements)
      ensures ok ==> Valid() && Faithful(doc, statements, |statements|, paths)
      ensures ok ==> Stands(doc.nodes, ROOT, MeaningOf(statements, |statements|).tree)
    {
      paths := [];
      ghost var currentPath: seq<Step> := [];
      RunStarts(doc, frozen, statements);
      assert Running(statements, 0, [], []);
      NoneIsAllowed(statements);
      hide *;
      for n := 0 to |statements|
        invariant Running(statements, n, paths, currentPath)
        invariant AllowedUpTo(statements, n)
      {
        AllowedOneMore(statements, n);
        if statements[n].Header? {
          ok, currentPath := RunHeader(statements, n, paths, currentPath);
          if !ok { return; }
          paths := paths + [[]];
        } else {
          ghost var path;
          ok, path := RunKeyValue(statements, n, paths, currentPath);
          if !ok { return; }
          paths := paths + [path];
        }
      }
      RunEnds(statements, paths, currentPath);
      ok := true;
    }

    lemma {:induction false} RunEnds(statements: seq<Statement>, paths: seq<seq<Step>>, currentPath: seq<Step>)
      requires WellKeyed(statements) && Running(statements, |statements|, paths, currentPath)
      requires AllowedUpTo(statements, |statements|)
      ensures DocumentAllowed(statements)
      ensures Valid() && Faithful(doc, statements, |statements|, paths)
      ensures Stands(doc.nodes, ROOT, MeaningOf(statements, |statements|).tree)
    {
    }
  }
}
