/** The document builder: table headers and key/value statements against the tree of tables,
    and the lists of tables the parser keeps to tell a redefinition from an extension. */
module TomlDocument {
  import opened Wrappers
  import opened Sequences
  import opened TomlTree

  datatype Doc = Doc(
    nodes: seq<Node>,
    implicitTables: seq<Id>,
    dottedKeyTables: seq<Id>,
    openInlineTables: seq<Id>,
    tableArrays: seq<Id>)

  const ROOT: Id := 0

  // ---------- What a document may hold ----------

  /** A value as it is written. */
  datatype Syntax =
    | ScalarSyntax(v: int)
    | ArraySyntax(items: seq<Syntax>)
    | InlineSyntax(entries: seq<Entry>)

  datatype Entry = Entry(key: seq<string>, value: Syntax)

  datatype Statement =
    | Header(key: seq<string>, isArray: bool)
    | KeyValue(key: seq<string>, value: Syntax)

  // ---------- What a document means ----------

  /** The tree a written value stands for. */
  function ValueTree(value: Syntax): Tree
    decreases value, 0
  {
    match value
    case ScalarSyntax(v) => Leaf(v)
    case ArraySyntax(items) => List(ItemTrees(items))
    case InlineSyntax(entries) => EntriesTree(entries)
  }

  function ItemTrees(items: seq<Syntax>): (r: seq<Tree>)
    ensures |r| == |items| && forall i :: 0 <= i < |items| ==> r[i] == ValueTree(items[i])
    decreases items, 1
  {
    seq(|items|, i requires 0 <= i < |items| => ValueTree(items[i]))
  }

  function EntriesTree(entries: seq<Entry>): Tree
    decreases entries, 1
  {
    if entries == [] then EMPTY_BRANCH
    else
      var n := |entries| - 1;
      Put(EntriesTree(entries[..n]), Keys(entries[n].key), ValueTree(entries[n].value))
  }

  /** The way down to the table a header names: an array of tables stands for its last element. */
  function Follow(t: Tree, segments: seq<string>): seq<Step>
    decreases |segments|
  {
    if segments == [] then []
    else if !t.Branch? || segments[0] !in t.children then Keys(segments)
    else
      var sub := t.children[segments[0]];
      if sub.List? && sub.items != [] then
        [Key(segments[0]), Index(|sub.items| - 1)] + Follow(sub.items[|sub.items| - 1], segments[1..])
      else [Key(segments[0])] + Follow(sub, segments[1..])
  }

  /** A tree, and the path of the table that key/value statements go to. */
  datatype Meaning = Meaning(tree: Tree, path: seq<Step>)

  function Spot(t: Tree, key: seq<string>): seq<Step>
    requires key != []
  {
    Follow(t, key[..|key| - 1]) + [Key(key[|key| - 1])]
  }

  function ItemsAt(t: Tree, path: seq<Step>): seq<Tree> {
    if TreeAt(t, path).Some? && TreeAt(t, path).value.List? then TreeAt(t, path).value.items else []
  }

  /** What a header does: it makes its table if it is not there, or one more element of its array. */
  function OpenHeader(t: Tree, key: seq<string>, isArray: bool): Meaning
    requires key != []
  {
    var spot := Spot(t, key);
    if isArray then
      Meaning(Put(t, spot, List(ItemsAt(t, spot) + [EMPTY_BRANCH])), spot + [Index(|ItemsAt(t, spot)|)])
    else Meaning(Touch(t, spot), spot)
  }

  /** What the first `n` statements mean. */
  function MeaningOf(statements: seq<Statement>, n: nat): Meaning
    requires n <= |statements| && forall i :: 0 <= i < n ==> statements[i].key != []
  {
    if n == 0 then Meaning(EMPTY_BRANCH, [])
    else
      var m := MeaningOf(statements, n - 1);
      match statements[n - 1]
      case Header(key, isArray) => OpenHeader(m.tree, key, isArray)
      case KeyValue(key, value) => m.(tree := Put(m.tree, m.path + Keys(key), ValueTree(value)))
  }

  // ---------- Only growing ----------

  ghost predicate NodeExtends(a: Node, b: Node, mayGrow: bool) {
    match a
    case Scalar(_) => b == a
    case Table(children, isInline) =>
      b.Table? && b.isInline == isInline
      && forall k :: k in children ==> k in b.children && b.children[k] == children[k]
    case Array(elems) => b.Array? && elems <= b.elems && (!mayGrow ==> b.elems == elems)
  }

  /** Every node is still there; tables only gain keys, and only table arrays gain elements. */
  ghost predicate Extends(d: Doc, e: Doc) {
    && |d.nodes| <= |e.nodes|
    && (forall id :: 0 <= id < |d.nodes| ==> NodeExtends(d.nodes[id], e.nodes[id], id in d.tableArrays))
    && (forall id :: 0 <= id < |d.nodes| ==> (id in d.tableArrays <==> id in e.tableArrays))
  }

  lemma {:induction false} ExtendsReflexive(d: Doc)
    ensures Extends(d, d)
  {
  }

  lemma {:induction false} ExtendsTransitive(d: Doc, e: Doc, f: Doc)
    requires Extends(d, e) && Extends(e, f)
    ensures Extends(d, f)
  {
  }

  /** A path that leads somewhere keeps leading there. */
  lemma {:induction false} PathsSurvive(d: Doc, e: Doc, at: Id, path: seq<Step>)
    requires Extends(d, e) && Resolve(d.nodes, at, path).Some?
    ensures Resolve(e.nodes, at, path) == Resolve(d.nodes, at, path)
    decreases |path|
  {
    if path != [] {
      var next := Child(d.nodes, at, path[0]);
      assert NodeExtends(d.nodes[at], e.nodes[at], at in d.tableArrays);
      assert Child(e.nodes, at, path[0]) == next;
      PathsSurvive(d, e, next.value, path[1..]);
    }
  }

  // ---------- The document invariant ----------

  predicate IsOpenTable(d: Doc, id: Id) {
    id < |d.nodes| && d.nodes[id].Table? && !d.nodes[id].isInline
  }

  ghost predicate PointsForward(d: Doc, id: Id)
    requires id < |d.nodes|
  {
    NodeForward(d.nodes, id)
  }

  /** The content of a finished value is closed: nothing in it is named outside it, and a table
      outside reaches it only through a scalar, an array or an inline table. */
  ghost predicate Seals(d: Doc, id: Id, frozen: set<Id>)
    requires id < |d.nodes|
  {
    match d.nodes[id]
    case Scalar(_) => true
    case Table(children, _) =>
      forall k :: k in children ==>
        if id in frozen then children[k] in frozen
        else children[k] in frozen ==> !IsOpenTable(d, children[k])
    case Array(elems) => id in frozen ==> forall i :: 0 <= i < |elems| ==> elems[i] in frozen
  }

  ghost predicate IsTableArray(d: Doc, id: Id, frozen: set<Id>) {
    && id < |d.nodes| && id !in frozen && d.nodes[id].Array? && d.nodes[id].elems != []
    && forall i :: 0 <= i < |d.nodes[id].elems| ==>
         IsOpenTable(d, d.nodes[id].elems[i]) && d.nodes[id].elems[i] !in frozen
  }

  ghost predicate Inv(d: Doc, frozen: set<Id>) {
    && IsOpenTable(d, ROOT) && ROOT !in frozen
    && (forall id :: 0 <= id < |d.nodes| ==> PointsForward(d, id))
    && Unshared(d.nodes)
    && (forall id :: 0 <= id < |d.nodes| ==> Seals(d, id, frozen))
    && (forall id :: id in frozen ==> id < |d.nodes|)
    && (forall id :: id in d.implicitTables ==> IsOpenTable(d, id) && id !in frozen)
    && (forall id :: id in d.dottedKeyTables ==> IsOpenTable(d, id))
    && (forall id :: id in d.tableArrays ==> IsTableArray(d, id, frozen))
    && (forall i, j :: 0 <= i < j < |d.implicitTables| ==> d.implicitTables[i] != d.implicitTables[j])
  }

  /** Nothing inside a finished value has changed. */
  ghost predicate FrozenUnchanged(d: Doc, e: Doc, frozen: set<Id>) {
    |d.nodes| <= |e.nodes| && forall id :: id in frozen && id < |d.nodes| ==> e.nodes[id] == d.nodes[id]
  }

  // ---------- The store operations ----------

  function Append(d: Doc, n: Node): Doc {
    d.(nodes := d.nodes + [n])
  }

  function Attach(d: Doc, at: Id, k: string, id: Id): Doc
    requires at < |d.nodes| && d.nodes[at].Table?
  {
    d.(nodes := d.nodes[at := d.nodes[at].(children := d.nodes[at].children[k := id])])
  }

  /** `emplace_hint` of an empty node under a key that is not there yet. */
  function NewChild(d: Doc, at: Id, k: string, n: Node): Doc
    requires at < |d.nodes| && d.nodes[at].Table?
  {
    Attach(Append(d, n), at, k, |d.nodes|)
  }

  lemma {:induction false} InvIsForward(d: Doc, frozen: set<Id>)
    requires Inv(d, frozen)
    ensures Forward(d.nodes)
  {
    forall id | 0 <= id < |d.nodes| ensures NodeForward(d.nodes, id) { assert PointsForward(d, id); }
  }

  lemma {:induction false} NewChildUnshared(nodes: seq<Node>, at: Id, k: string, n: Node)
    requires Forward(nodes) && Unshared(nodes) && at < |nodes| && IsEmptyNode(n)
    requires nodes[at].Table? && k !in nodes[at].children
    ensures Unshared((nodes + [n])[at := nodes[at].(children := nodes[at].children[k := |nodes|])])
  {
    var grown := nodes + [n];
    assert grown[at] == nodes[at];
    AppendUnshared(nodes, n);
    FreshIsUnlinked(nodes, |nodes|);
    AttachLinks(grown, at, k, |nodes|);
    LinkUnshared(grown, grown[at := nodes[at].(children := nodes[at].children[k := |nodes|])], at, Key(k), |nodes|);
  }

  lemma {:induction false} NewChildKeeps(d: Doc, frozen: set<Id>, at: Id, k: string)
    requires Inv(d, frozen) && at < |d.nodes| && at !in frozen
    requires d.nodes[at].Table? && k !in d.nodes[at].children
    ensures var e := NewChild(d, at, k, Table(map[], false));
            Inv(e, frozen) && Extends(d, e) && FrozenUnchanged(d, e, frozen)
  {
    var e := NewChild(d, at, k, Table(map[], false));
    InvIsForward(d, frozen);
    NewChildUnshared(d.nodes, at, k, Table(map[], false));
    hide Unshared;
    forall id | 0 <= id < |e.nodes| ensures PointsForward(e, id) && Seals(e, id, frozen) {
      if id < |d.nodes| {
        assert PointsForward(d, id) && Seals(d, id, frozen);
      }
    }
    forall id | id in e.tableArrays ensures IsTableArray(e, id, frozen) {
      assert IsTableArray(d, id, frozen);
    }
  }

  // ---------- Table headers ----------

  /** Going down to the table a header names: where it stops, and the segments still to create. */
  datatype Walk = Blocked | Reached(at: Id, missing: seq<string>)

  function HeaderWalk(d: Doc, at: Id, segments: seq<string>): Walk
    decreases |segments|
  {
    if segments == [] then Reached(at, [])
    else if !(at < |d.nodes| && d.nodes[at].Table?) then Blocked
    else if segments[0] !in d.nodes[at].children then Reached(at, segments)
    else
      var p := d.nodes[at].children[segments[0]];
      if p >= |d.nodes| then Blocked
      else
        match d.nodes[p]
        case Table(_, isInline) =>
          if isInline && p !in d.openInlineTables then Blocked else HeaderWalk(d, p, segments[1..])
        case Array(elems) =>
          // an array of tables stands for its most recent element
          if p in d.tableArrays && elems != [] then HeaderWalk(d, elems[|elems| - 1], segments[1..]) else Blocked
        case Scalar(_) => Blocked
  }

  predicate IsArrayOfTables(d: Doc, id: Id) {
    && id < |d.nodes| && d.nodes[id].Array? && d.nodes[id].elems != []
    && forall i :: 0 <= i < |d.nodes[id].elems| ==>
         d.nodes[id].elems[i] < |d.nodes| && d.nodes[d.nodes[id].elems[i]].Table?
  }

  /** An implicit table may still be opened if it holds nothing but tables. */
  predicate MayPromote(d: Doc, id: Id) {
    && id in d.implicitTables && id < |d.nodes| && d.nodes[id].Table?
    && forall k :: k in d.nodes[id].children ==>
         var c := d.nodes[id].children[k];
         (c < |d.nodes| && d.nodes[c].Table?) || IsArrayOfTables(d, c)
  }

  /** When a table header is accepted. */
  predicate HeaderAllowed(d: Doc, key: seq<string>, isArray: bool)
    requires key != []
  {
    match HeaderWalk(d, ROOT, key[..|key| - 1])
    case Blocked => false
    case Reached(at, missing) =>
      var last := key[|key| - 1];
      || missing != []
      || (at < |d.nodes| && d.nodes[at].Table?
          && (|| last !in d.nodes[at].children
              || var m := d.nodes[at].children[last];
                 m < |d.nodes| && if isArray then d.nodes[m].Array? && m in d.tableArrays else MayPromote(d, m)))
  }

  // ---------- The parser ----------

  /** Removes the first occurrence, as `find` and `erase` do. */
  function Without(s: seq<Id>, id: Id): seq<Id> {
    if s == [] then [] else if s[0] == id then s[1..] else [s[0]] + Without(s[1..], id)
  }

  lemma {:induction false} WithoutElement(s: seq<Id>, id: Id)
    requires forall i, j :: 0 <= i < j < |s| ==> s[i] != s[j]
    ensures forall x :: x in Without(s, id) <==> x in s && x != id
    ensures forall i, j :: 0 <= i < j < |Without(s, id)| ==> Without(s, id)[i] != Without(s, id)[j]
  {
    if s != [] {
      if s[0] == id {
        forall x | x in s && x != id ensures x in s[1..] {
        }
      } else {
        WithoutElement(s[1..], id);
        var w := Without(s[1..], id);
        assert forall x :: x in w ==> x in s[1..];
        assert s[0] !in s[1..];
      }
    }
  }

  lemma {:induction false} PromoteKeeps(d: Doc, frozen: set<Id>, id: Id)
    requires Inv(d, frozen) && id in d.implicitTables
    ensures var e := d.(implicitTables := Without(d.implicitTables, id));
            Inv(e, frozen) && Extends(d, e) && FrozenUnchanged(d, e, frozen)
  {
    var e := d.(implicitTables := Without(d.implicitTables, id));
    WithoutElement(d.implicitTables, id);
    hide Unshared;
    forall x | 0 <= x < |e.nodes| ensures PointsForward(e, x) && Seals(e, x, frozen) {
      assert PointsForward(d, x) && Seals(d, x, frozen);
    }
    forall x | x in e.tableArrays ensures IsTableArray(e, x, frozen) {
      assert IsTableArray(d, x, frozen);
    }
  }

  /** An implicit table under a new key. */
  function NewImplicit(d: Doc, at: Id, k: string): Doc
    requires at < |d.nodes| && d.nodes[at].Table?
  {
    var e := NewChild(d, at, k, Table(map[], false));
    e.(implicitTables := e.implicitTables + [|d.nodes|])
  }

  lemma {:induction false} NewImplicitKeeps(d: Doc, frozen: set<Id>, at: Id, k: string)
    requires Inv(d, frozen) && at < |d.nodes| && at !in frozen
    requires d.nodes[at].Table? && k !in d.nodes[at].children
    ensures var e := NewImplicit(d, at, k);
            Inv(e, frozen) && Extends(d, e) && FrozenUnchanged(d, e, frozen)
  {
    var e := NewImplicit(d, at, k);
    NewChildKeeps(d, frozen, at, k);
    hide Unshared;
    forall i | 0 <= i < |d.implicitTables| ensures d.implicitTables[i] < |d.nodes| {
      assert IsOpenTable(d, d.implicitTables[i]);
    }
    var c := NewChild(d, at, k, Table(map[], false));
    forall x | 0 <= x < |e.nodes| ensures PointsForward(e, x) && Seals(e, x, frozen) {
      assert PointsForward(c, x) && Seals(c, x, frozen);
    }
    forall x | x in e.tableArrays ensures IsTableArray(e, x, frozen) {
      assert IsTableArray(c, x, frozen);
    }
  }

  /** A new array of tables under a new key, holding its first table. */
  function NewTableArray(d: Doc, at: Id, k: string): Doc
    requires at < |d.nodes| && d.nodes[at].Table?
  {
    var e := Append(Append(d, Array([|d.nodes| + 1])), Table(map[], false));
    Attach(e.(tableArrays := e.tableArrays + [|d.nodes|]), at, k, |d.nodes|)
  }

  lemma {:induction false} NewArrayUnshared(nodes: seq<Node>, at: Id, k: string)
    requires Forward(nodes) && Unshared(nodes) && at < |nodes|
    requires nodes[at].Table? && k !in nodes[at].children
    ensures var attached := nodes[at].(children := nodes[at].children[k := |nodes|]);
            Unshared((nodes + [Array([|nodes| + 1]), Table(map[], false)])[at := attached])
  {
    var attached := nodes[at].(children := nodes[at].children[k := |nodes|]);
    NewChildUnshared(nodes, at, k, Array([]));
    var one := (nodes + [Array([])])[at := attached];
    FreshIsUnlinked(nodes, |nodes| + 1);
    AttachLinks(nodes + [Array([])], at, k, |nodes|);
    AppendUnshared(nodes, Array([]));
    AppendUnshared(one, Table(map[], false));
    var two := one + [Table(map[], false)];
    AddItemLinks(two, |nodes|, |nodes| + 1);
    assert (nodes + [Array([])])[at] == nodes[at];
    LinkUnshared(two, two[|nodes| := Array([|nodes| + 1])], |nodes|, Index(0), |nodes| + 1);
    assert two[|nodes| := Array([|nodes| + 1])]
      == (nodes + [Array([|nodes| + 1]), Table(map[], false)])[at := attached];
  }

  lemma {:induction false} NewTableArrayKeeps(d: Doc, frozen: set<Id>, at: Id, k: string)
    requires Inv(d, frozen) && at < |d.nodes| && at !in frozen
    requires d.nodes[at].Table? && k !in d.nodes[at].children
    ensures var e := NewTableArray(d, at, k);
            Inv(e, frozen) && Extends(d, e) && FrozenUnchanged(d, e, frozen)
  {
    var e := NewTableArray(d, at, k);
    InvIsForward(d, frozen);
    NewArrayUnshared(d.nodes, at, k);
    assert d.nodes + [Array([|d.nodes| + 1])] + [Table(map[], false)]
      == d.nodes + [Array([|d.nodes| + 1]), Table(map[], false)];
    hide Unshared;
    forall id | 0 <= id < |e.nodes| ensures PointsForward(e, id) && Seals(e, id, frozen) {
      if id < |d.nodes| {
        assert PointsForward(d, id) && Seals(d, id, frozen);
      }
    }
    forall id | id in e.tableArrays ensures IsTableArray(e, id, frozen) {
      if id in d.tableArrays { assert IsTableArray(d, id, frozen); }
    }
  }

  /** One more table at the end of an array of tables. */
  function NewElement(d: Doc, arr: Id): Doc
    requires arr < |d.nodes| && d.nodes[arr].Array?
  {
    var e := Append(d, Table(map[], false));
    e.(nodes := e.nodes[arr := Array(d.nodes[arr].elems + [|d.nodes|])])
  }

  lemma {:induction false} NewItemUnshared(nodes: seq<Node>, arr: Id)
    requires Forward(nodes) && Unshared(nodes) && arr < |nodes| && nodes[arr].Array?
    ensures Unshared((nodes + [Table(map[], false)])[arr := Array(nodes[arr].elems + [|nodes|])])
  {
    var grown := nodes + [Table(map[], false)];
    assert grown[arr] == nodes[arr];
    AppendUnshared(nodes, Table(map[], false));
    FreshIsUnlinked(nodes, |nodes|);
    AddItemLinks(grown, arr, |nodes|);
    LinkUnshared(grown, grown[arr := Array(nodes[arr].elems + [|nodes|])], arr, Index(|nodes[arr].elems|), |nodes|);
  }

  lemma {:induction false} NewElementKeeps(d: Doc, frozen: set<Id>, arr: Id)
    requires Inv(d, frozen) && arr in d.tableArrays
    ensures IsTableArray(d, arr, frozen)
    ensures var e := NewElement(d, arr);
            Inv(e, frozen) && Extends(d, e) && FrozenUnchanged(d, e, frozen)
  {
    assert IsTableArray(d, arr, frozen);
    var e := NewElement(d, arr);
    InvIsForward(d, frozen);
    NewItemUnshared(d.nodes, arr);
    hide Unshared;
    forall id | 0 <= id < |e.nodes| ensures PointsForward(e, id) && Seals(e, id, frozen) {
      if id < |d.nodes| {
        assert PointsForward(d, id) && Seals(d, id, frozen);
      }
    }
    forall id | id in e.tableArrays ensures IsTableArray(e, id, frozen) {
      assert IsTableArray(d, id, frozen);
    }
  }

  // ---------- Values and key/value statements ----------

  const MAX_NESTED_VALUES := 256

  /** Keys have at least one segment. */
  predicate KeysNonEmpty(value: Syntax) {
    match value
    case ScalarSyntax(_) => true
    case ArraySyntax(items) => forall i :: 0 <= i < |items| ==> KeysNonEmpty(items[i])
    case InlineSyntax(entries) => forall i :: 0 <= i < |entries| ==>
        entries[i].key != [] && KeysNonEmpty(entries[i].value)
  }

  /** One key is the other, or leads to it. */
  predicate Comparable(a: seq<string>, b: seq<string>) { a <= b || b <= a }

  /** When a value is accepted: it is not nested too deeply, and no key of an inline table is another key
      of that table or leads to one. */
  predicate ValueAllowed(value: Syntax, nested: nat)
    decreases value, 1
  {
    && nested < MAX_NESTED_VALUES
    && match value
       case ScalarSyntax(_) => true
       case ArraySyntax(items) => forall i :: 0 <= i < |items| ==> ValueAllowed(items[i], nested + 1)
       case InlineSyntax(entries) => EntriesAllowed(entries, |entries|, nested + 1)
  }

  predicate EntriesAllowed(entries: seq<Entry>, n: nat, nested: nat)
    requires n <= |entries|
    decreases entries, 1, n
  {
    n == 0 || (EntriesAllowed(entries, n - 1, nested) && EntryAllowed(entries, n - 1, nested))
  }

  /** The i-th key is apart from those before it, and its value is accepted. */
  predicate EntryAllowed(entries: seq<Entry>, i: nat, nested: nat)
    requires i < |entries|
    decreases entries, 0
  {
    (forall j :: 0 <= j < i ==> !Comparable(entries[j].key, entries[i].key)) && ValueAllowed(entries[i].value, nested)
  }

  /** The node holds what was written. */
  ghost predicate Denotes(d: Doc, id: Id, value: Syntax)
    decreases value, 0
  {
    && id < |d.nodes|
    && match value
       case ScalarSyntax(v) => d.nodes[id] == Scalar(v)
       case ArraySyntax(items) =>
         && d.nodes[id].Array? && id !in d.tableArrays && |d.nodes[id].elems| == |items|
         && forall i :: 0 <= i < |items| ==> Denotes(d, d.nodes[id].elems[i], items[i])
       case InlineSyntax(entries) =>
         && d.nodes[id].Table? && d.nodes[id].isInline
         && forall i :: 0 <= i < |entries| ==> DenotesEntry(d, id, entries[i].key, entries[i].value)
  }

  ghost predicate DenotesEntry(d: Doc, at: Id, key: seq<string>, value: Syntax)
    decreases value, 1
  {
    Resolve(d.nodes, at, Keys(key)).Some? && Denotes(d, Resolve(d.nodes, at, Keys(key)).value, value)
  }

  /** As `Extends`, for the nodes from `lo` on. */
  ghost predicate ExtendsFrom(d: Doc, e: Doc, lo: Id) {
    && |d.nodes| <= |e.nodes|
    && (forall id :: lo <= id < |d.nodes| ==> NodeExtends(d.nodes[id], e.nodes[id], id in d.tableArrays))
    && (forall id :: lo <= id < |d.nodes| ==> (id in d.tableArrays <==> id in e.tableArrays))
  }

  lemma {:induction false} PathsSurviveFrom(d: Doc, e: Doc, lo: Id, at: Id, path: seq<Step>)
    requires ExtendsFrom(d, e, lo) && lo <= at && Resolve(d.nodes, at, path).Some?
    requires forall id :: 0 <= id < |d.nodes| ==> PointsForward(d, id)
    ensures Resolve(e.nodes, at, path) == Resolve(d.nodes, at, path) && at <= Resolve(d.nodes, at, path).value
    decreases |path|
  {
    if path != [] {
      var next := Child(d.nodes, at, path[0]).value;
      assert NodeExtends(d.nodes[at], e.nodes[at], at in d.tableArrays) && PointsForward(d, at);
      assert Child(e.nodes, at, path[0]) == Some(next) && at < next;
      PathsSurviveFrom(d, e, lo, next, path[1..]);
    }
  }

  /** What was written stays written. */
  lemma {:induction false} DenotesSurvives(d: Doc, e: Doc, lo: Id, id: Id, value: Syntax)
    requires ExtendsFrom(d, e, lo) && lo <= id && Denotes(d, id, value)
    requires forall x :: 0 <= x < |d.nodes| ==> PointsForward(d, x)
    ensures Denotes(e, id, value)
    decreases value
  {
    assert NodeExtends(d.nodes[id], e.nodes[id], id in d.tableArrays) && PointsForward(d, id);
    match value
    case ScalarSyntax(v) =>
    case ArraySyntax(items) =>
      forall i | 0 <= i < |items| ensures Denotes(e, e.nodes[id].elems[i], items[i]) {
        DenotesSurvives(d, e, lo, d.nodes[id].elems[i], items[i]);
      }
    case InlineSyntax(entries) =>
      forall i | 0 <= i < |entries| ensures DenotesEntry(e, id, entries[i].key, entries[i].value) {
        assert DenotesEntry(d, id, entries[i].key, entries[i].value);
        PathsSurviveFrom(d, e, lo, id, Keys(entries[i].key));
        DenotesSurvives(d, e, lo, Resolve(d.nodes, id, Keys(entries[i].key)).value, entries[i].value);
      }
  }

  /** A dotted key may enter the tables made by dotted keys, and those that headers made on their way. */
  predicate MayEnter(d: Doc, id: Id) {
    id < |d.nodes| && d.nodes[id].Table? && (id in d.dottedKeyTables || id in d.implicitTables)
  }

  /** Going down a dotted key. */
  function DottedWalk(d: Doc, at: Id, segments: seq<string>): Walk
    decreases |segments|
  {
    if segments == [] then Reached(at, [])
    else if !(at < |d.nodes| && d.nodes[at].Table?) then Blocked
    else if segments[0] !in d.nodes[at].children then Reached(at, segments)
    else
      var p := d.nodes[at].children[segments[0]];
      if MayEnter(d, p) then DottedWalk(d, p, segments[1..]) else Blocked
  }

  predicate InsertAllowed(d: Doc, tbl: Id, key: seq<string>)
    requires key != []
  {
    match DottedWalk(d, tbl, key[..|key| - 1])
    case Blocked => false
    case Reached(at, missing) =>
      missing != [] || (at < |d.nodes| && d.nodes[at].Table? && key[|key| - 1] !in d.nodes[at].children)
  }

  /** A table made by a dotted key. */
  function NewDotted(d: Doc, at: Id, k: string): Doc
    requires at < |d.nodes| && d.nodes[at].Table?
  {
    var e := NewChild(d, at, k, Table(map[], false));
    e.(dottedKeyTables := e.dottedKeyTables + [|d.nodes|])
  }

  lemma {:induction false} NewDottedKeeps(d: Doc, frozen: set<Id>, at: Id, k: string)
    requires Inv(d, frozen) && at < |d.nodes| && at !in frozen
    requires d.nodes[at].Table? && k !in d.nodes[at].children
    ensures var e := NewDotted(d, at, k);
            Inv(e, frozen) && Extends(d, e) && FrozenUnchanged(d, e, frozen)
  {
    var e := NewDotted(d, at, k);
    NewChildKeeps(d, frozen, at, k);
    hide Unshared;
    var c := NewChild(d, at, k, Table(map[], false));
    forall x | 0 <= x < |e.nodes| ensures PointsForward(e, x) && Seals(e, x, frozen) {
      assert PointsForward(c, x) && Seals(c, x, frozen);
    }
    forall x | x in e.tableArrays ensures IsTableArray(e, x, frozen) {
      assert IsTableArray(c, x, frozen);
    }
  }

  /** A new node of a value that is being read: nothing points to it yet. */
  lemma {:induction false} AppendKeeps(d: Doc, frozen: set<Id>, n: Node)
    requires Inv(d, frozen) && n != Table(map[], false)
    requires n.Scalar? || n == Array([]) || n == Table(map[], true)
    ensures Inv(Append(d, n), frozen) && Extends(d, Append(d, n)) && FrozenUnchanged(d, Append(d, n), frozen)
  {
    var e := Append(d, n);
    AppendUnshared(d.nodes, n);
    hide Unshared;
    forall id | 0 <= id < |e.nodes| ensures PointsForward(e, id) && Seals(e, id, frozen) {
      if id < |d.nodes| { assert PointsForward(d, id) && Seals(d, id, frozen); }
    }
    forall x | x in e.tableArrays ensures IsTableArray(e, x, frozen) {
      assert IsTableArray(d, x, frozen);
    }
  }

  ghost function Range(lo: Id, hi: Id): (r: set<Id>)
    ensures forall id :: id in r <==> lo <= id < hi
    decreases hi - lo
  {
    if lo >= hi then {} else {lo} + Range(lo + 1, hi)
  }

  /** Sealing a finished value: the nodes from `start` on, which nothing before them names yet. */
  lemma {:induction false} SealKeeps(d: Doc, frozen: set<Id>, start: Id)
    requires Inv(d, frozen) && 0 < start <= |d.nodes|
    requires forall id :: 0 <= id < start ==>
               (d.nodes[id].Table? ==> forall k :: k in d.nodes[id].children ==> d.nodes[id].children[k] < start)
    requires forall id :: id in d.implicitTables ==> id < start
    requires forall id :: id in d.tableArrays ==>
               id < start && forall i :: 0 <= i < |d.nodes[id].elems| ==> d.nodes[id].elems[i] < start
    ensures Inv(d, frozen + Range(start, |d.nodes|))
  {
    var f := frozen + Range(start, |d.nodes|);
    forall id | 0 <= id < |d.nodes| ensures Seals(d, id, f) {
      assert PointsForward(d, id) && Seals(d, id, frozen);
    }
    forall x | x in d.tableArrays ensures IsTableArray(d, x, f) {
      assert IsTableArray(d, x, frozen);
    }
  }

  lemma {:induction false} AttachKeeps(d: Doc, frozen: set<Id>, at: Id, k: string, id: Id)
    requires Inv(d, frozen) && at < id < |d.nodes| && at !in frozen
    requires d.nodes[at].Table? && k !in d.nodes[at].children && !IsOpenTable(d, id) && Unlinked(d.nodes, id)
    ensures var e := Attach(d, at, k, id);
            Inv(e, frozen) && Extends(d, e) && FrozenUnchanged(d, e, frozen)
  {
    var e := Attach(d, at, k, id);
    AttachLinks(d.nodes, at, k, id);
    LinkUnshared(d.nodes, e.nodes, at, Key(k), id);
    hide Unshared, Unlinked;
    forall x | 0 <= x < |e.nodes| ensures PointsForward(e, x) && Seals(e, x, frozen) {
      assert PointsForward(d, x) && Seals(d, x, frozen);
    }
    forall x | x in e.tableArrays ensures IsTableArray(e, x, frozen) {
      assert IsTableArray(d, x, frozen);
    }
  }

  /** One more element of an array value that is being read. */
  function AddItem(d: Doc, arr: Id, id: Id): Doc
    requires arr < |d.nodes| && d.nodes[arr].Array?
  {
    d.(nodes := d.nodes[arr := Array(d.nodes[arr].elems + [id])])
  }

  lemma {:induction false} AddItemKeeps(d: Doc, frozen: set<Id>, arr: Id, id: Id)
    requires Inv(d, frozen) && arr < id < |d.nodes| && d.nodes[arr].Array? && arr !in frozen && arr !in d.tableArrays
    requires Unlinked(d.nodes, id)
    ensures Inv(AddItem(d, arr, id), frozen) && ExtendsFrom(d, AddItem(d, arr, id), arr + 1)
  {
    var e := AddItem(d, arr, id);
    AddItemLinks(d.nodes, arr, id);
    LinkUnshared(d.nodes, e.nodes, arr, Index(|d.nodes[arr].elems|), id);
    hide Unshared, Unlinked;
    forall x | 0 <= x < |e.nodes| ensures PointsForward(e, x) && Seals(e, x, frozen) {
      assert PointsForward(d, x) && Seals(d, x, frozen);
    }
    forall x | x in e.tableArrays ensures IsTableArray(e, x, frozen) {
      assert IsTableArray(d, x, frozen);
    }
  }

  lemma {:induction false} OpenTables(d: Doc, frozen: set<Id>)
    requires Inv(d, frozen)
    ensures forall id :: id in d.dottedKeyTables || id in d.implicitTables ==> IsOpenTable(d, id)
  {
  }

  /** What reading a value leaves alone: every older node and every list of the document. */
  ghost predicate ValueFrame(d: Doc, e: Doc) {
    && d.nodes <= e.nodes && d.dottedKeyTables <= e.dottedKeyTables
    && e.implicitTables == d.implicitTables && e.tableArrays == d.tableArrays
    && e.openInlineTables == d.openInlineTables
  }

  /** Nothing points to the root of a value that has just been read. */
  lemma {:induction false} ValueIsUnlinked(prior: Doc, read: Doc, f: set<Id>, frozen: set<Id>)
    requires Inv(prior, f) && Inv(read, frozen) && ValueFrame(prior, read)
    ensures Unlinked(read.nodes, |prior.nodes|)
  {
    InvIsForward(prior, f);
    InvIsForward(read, frozen);
    FreshIsUnlinked(prior.nodes, |prior.nodes|);
    forall a: Id, s ensures Child(read.nodes, a, s) != Some(|prior.nodes|) {
      if a < |prior.nodes| {
        assert Child(read.nodes, a, s) == Child(prior.nodes, a, s);
      } else if Child(read.nodes, a, s).Some? {
        ChildForward(read.nodes, a, s);
      }
    }
  }

  /** What an insertion below `tbl` leaves alone. */
  ghost predicate InsertFrame(d: Doc, e: Doc, tbl: Id) {
    && |d.nodes| <= |e.nodes| && (forall id :: 0 <= id < tbl && id < |d.nodes| ==> e.nodes[id] == d.nodes[id])
    && d.dottedKeyTables <= e.dottedKeyTables
    && e.implicitTables == d.implicitTables && e.tableArrays == d.tableArrays
    && e.openInlineTables == d.openInlineTables
  }

  ghost predicate FrozenGrew(f: set<Id>, g: set<Id>, from: Id) {
    f <= g && forall id :: id in g ==> id in f || id >= from
  }

  lemma {:induction false} ResolveNewChild(d: Doc, e: Doc, tbl: Id, front: seq<string>, at: Id, k: string, id: Id)
    requires Extends(d, e) && Resolve(d.nodes, tbl, Keys(front)) == Some(at) && at < |e.nodes| && e.nodes[at].Table?
    requires k in e.nodes[at].children && e.nodes[at].children[k] == id
    ensures Resolve(e.nodes, tbl, Keys(front + [k])) == Some(id)
  {
    PathsSurvive(d, e, tbl, Keys(front));
    KeysConcat(front, [k]);
    ResolveConcat(e.nodes, tbl, Keys(front), Keys([k]));
    assert Keys([k]) == [Key(k)] && [Key(k)][1..] == [];
  }

  /** The earlier items of an array value are not affected by the next one. */
  lemma {:induction false} ItemsSurvive(prior: Doc, read: Doc, d: Doc, arr: Id, id: Id, items: seq<Syntax>, n: nat)
    requires n < |items| && ValueFrame(prior, read) && arr < |prior.nodes| && arr !in prior.tableArrays
    requires prior.nodes[arr].Array? && |prior.nodes[arr].elems| == n
    requires forall x :: 0 <= x < |prior.nodes| ==> PointsForward(prior, x)
    requires forall x :: 0 <= x < |read.nodes| ==> PointsForward(read, x)
    requires d == AddItem(read, arr, id) && arr < id < |read.nodes|
    requires forall j :: 0 <= j < n ==> Denotes(prior, prior.nodes[arr].elems[j], items[j])
    requires Denotes(read, id, items[n])
    ensures forall j :: 0 <= j < n + 1 ==> Denotes(d, d.nodes[arr].elems[j], items[j])
  {
    assert PointsForward(prior, arr);
    assert ExtendsFrom(prior, d, arr + 1) && ExtendsFrom(read, d, arr + 1);
    hide PointsForward, ExtendsFrom, NodeExtends, Denotes;
    forall j | 0 <= j < n + 1 ensures Denotes(d, d.nodes[arr].elems[j], items[j]) {
      if j < n {
        DenotesSurvives(prior, d, arr + 1, prior.nodes[arr].elems[j], items[j]);
      } else {
        DenotesSurvives(read, d, arr + 1, id, items[n]);
      }
    }
  }

  lemma {:induction false} SealValue(prior: Doc, read: Doc, f: set<Id>, frozen: set<Id>)
    requires Inv(prior, f) && Inv(read, frozen) && ValueFrame(prior, read)
    ensures Inv(read, frozen + Range(|prior.nodes|, |read.nodes|))
  {
    var start := |prior.nodes|;
    forall id | 0 <= id < start && read.nodes[id].Table?
      ensures forall k :: k in read.nodes[id].children ==> read.nodes[id].children[k] < start
    {
      assert PointsForward(prior, id) && read.nodes[id] == prior.nodes[id];
    }
    forall id | id in read.tableArrays
      ensures id < start && forall i :: 0 <= i < |read.nodes[id].elems| ==> read.nodes[id].elems[i] < start
    {
      assert IsTableArray(prior, id, f) && PointsForward(prior, id) && read.nodes[id] == prior.nodes[id];
    }
    SealKeeps(read, frozen, start);
  }

  lemma {:induction false} ValueExtends(prior: Doc, read: Doc, f: set<Id>)
    requires ValueFrame(prior, read)
    ensures Extends(prior, read) && FrozenUnchanged(prior, read, f)
  {
  }

  lemma {:induction false} WholeExtends(d: Doc, e: Doc)
    requires Extends(d, e)
    ensures ExtendsFrom(d, e, 0)
  {
  }

  lemma {:induction false} AllPointForward(d: Doc, frozen: set<Id>)
    requires Inv(d, frozen)
    ensures forall x :: 0 <= x < |d.nodes| ==> PointsForward(d, x)
  {
  }

  /** The last step of an insertion: attaching the value to the table that was found. */
  lemma {:induction false} InsertionKeeps(
      before: Doc, prior: Doc, read: Doc, f: set<Id>, g: set<Id>, tbl: Id, at: Id, last: string, id: Id)
    requires Extends(before, prior) && InsertFrame(before, prior, tbl) && FrozenUnchanged(before, prior, f)
    requires ValueFrame(prior, read) && Inv(read, g) && Inv(prior, f)
    requires tbl <= at < |prior.nodes| && prior.nodes[at].Table? && at !in f && last !in prior.nodes[at].children
    requires forall x :: x in g ==> x in f || x >= |prior.nodes|
    requires id == |prior.nodes| < |read.nodes| && !IsOpenTable(read, id)
    ensures at < |read.nodes| && read.nodes[at] == prior.nodes[at]
    ensures var e := Attach(read, at, last, id);
            Inv(e, g) && Extends(before, e) && InsertFrame(before, e, tbl) && FrozenUnchanged(before, e, f)
  {
    ValueIsUnlinked(prior, read, f, g);
    AttachKeeps(read, g, at, last, id);
    ValueExtends(prior, read, f);
    ExtendsTransitive(before, prior, read);
    ExtendsTransitive(before, read, Attach(read, at, last, id));
  }

  lemma {:induction false} InsertionDenotes(
      prior: Doc, read: Doc, f: set<Id>, g: set<Id>, tbl: Id, front: seq<string>, at: Id, last: string, id: Id,
      value: Syntax)
    requires ValueFrame(prior, read) && Inv(prior, f) && Inv(read, g) && Denotes(read, id, value)
    requires at < id == |prior.nodes| && prior.nodes[at].Table? && last !in prior.nodes[at].children
    requires Resolve(prior.nodes, tbl, Keys(front)) == Some(at) && at !in g && !IsOpenTable(read, id)
    ensures at < |read.nodes| && read.nodes[at].Table?
    ensures DenotesEntry(Attach(read, at, last, id), tbl, front + [last], value)
  {
    var e := Attach(read, at, last, id);
    ValueExtends(prior, read, {});
    ValueIsUnlinked(prior, read, f, g);
    AttachKeeps(read, g, at, last, id);
    PathsSurvive(prior, read, tbl, Keys(front));
    ResolveNewChild(read, e, tbl, front, at, last, id);
    WholeExtends(read, e);
    DenotesSurvives(read, e, 0, id, value);
  }

  lemma {:induction false} OpenListKeeps(d: Doc, frozen: set<Id>, list: seq<Id>)
    requires Inv(d, frozen)
    ensures Inv(d.(openInlineTables := list), frozen) && Extends(d, d.(openInlineTables := list))
  {
    var e := d.(openInlineTables := list);
    hide Unshared;
    forall x | 0 <= x < |e.nodes| ensures PointsForward(e, x) && Seals(e, x, frozen) {
      assert PointsForward(d, x) && Seals(d, x, frozen);
    }
    forall x | x in e.tableArrays ensures IsTableArray(e, x, frozen) {
      assert IsTableArray(d, x, frozen);
    }
  }

  lemma {:induction false} EntriesSurvive(d: Doc, e: Doc, frozen: set<Id>, tbl: Id, entries: seq<Entry>, n: nat)
    requires Extends(d, e) && n <= |entries| && |d.nodes| <= |e.nodes|
    requires forall x :: 0 <= x < |d.nodes| ==> PointsForward(d, x)
    requires forall j :: 0 <= j < n ==> DenotesEntry(d, tbl, entries[j].key, entries[j].value)
    ensures forall j :: 0 <= j < n ==> DenotesEntry(e, tbl, entries[j].key, entries[j].value)
  {
    WholeExtends(d, e);
    forall j | 0 <= j < n ensures DenotesEntry(e, tbl, entries[j].key, entries[j].value) {
      assert DenotesEntry(d, tbl, entries[j].key, entries[j].value);
      PathsSurvive(d, e, tbl, Keys(entries[j].key));
      DenotesSurvives(d, e, 0, Resolve(d.nodes, tbl, Keys(entries[j].key)).value, entries[j].value);
    }
  }

  lemma {:induction false} StaysInline(d: Doc, e: Doc, tbl: Id)
    requires Extends(d, e) && tbl < |d.nodes| && d.nodes[tbl].Table? && d.nodes[tbl].isInline
    ensures e.nodes[tbl].Table? && e.nodes[tbl].isInline
  {
  }

  // ---------- Whole documents ----------

  /** The keys along a path, without the array positions. */
  function Named(path: seq<Step>): seq<string> {
    if path == [] then []
    else (match path[0] case Key(k) => [k] case Index(_) => []) + Named(path[1..])
  }

  lemma {:induction false} NamedConcat(a: seq<Step>, b: seq<Step>)
    ensures Named(a + b) == Named(a) + Named(b)
  {
    if a == [] {
      assert a + b == b;
    } else {
      assert (a + b)[1..] == a[1..] + b;
      NamedConcat(a[1..], b);
    }
  }

  lemma {:induction false} NamedKeys(key: seq<string>)
    ensures Named(Keys(key)) == key
  {
    if key != [] { NamedKeys(key[1..]); }
  }

  /** The key of the header a statement stands under. */
  function HeaderAt(statements: seq<Statement>, n: nat): seq<string>
    requires n <= |statements|
  {
    if n == 0 then []
    else match statements[n - 1]
         case Header(key, _) => key
         case KeyValue(_, _) => HeaderAt(statements, n - 1)
  }

  ghost predicate StandsAt(d: Doc, statements: seq<Statement>, i: nat, path: seq<Step>)
    requires i < |statements| && statements[i].KeyValue?
  {
    && Named(path) == HeaderAt(statements, i) + statements[i].key
    && Resolve(d.nodes, ROOT, path).Some? && Denotes(d, Resolve(d.nodes, ROOT, path).value, statements[i].value)
  }

  lemma {:induction false} AllStand(d: Doc, e: Doc, statements: seq<Statement>, n: nat, paths: seq<seq<Step>>)
    requires n <= |statements| && |paths| == n && Extends(d, e)
    requires forall x :: 0 <= x < |d.nodes| ==> PointsForward(d, x)
    requires forall i :: 0 <= i < n && statements[i].KeyValue? ==> StandsAt(d, statements, i, paths[i])
    ensures forall i :: 0 <= i < n && statements[i].KeyValue? ==> StandsAt(e, statements, i, paths[i])
  {
    WholeExtends(d, e);
    forall i | 0 <= i < n && statements[i].KeyValue? ensures StandsAt(e, statements, i, paths[i]) {
      assert StandsAt(d, statements, i, paths[i]);
      PathsSurvive(d, e, ROOT, paths[i]);
      DenotesSurvives(d, e, 0, Resolve(d.nodes, ROOT, paths[i]).value, statements[i].value);
    }
  }

  /** An accepted key led nowhere before. */
  lemma {:induction false} InsertIsNew(d: Doc, tbl: Id, key: seq<string>)
    requires key != []
    ensures InsertAllowed(d, tbl, key) ==> Resolve(d.nodes, tbl, Keys(key)) == None
  {
    if InsertAllowed(d, tbl, key) {
      var front, last := key[..|key| - 1], key[|key| - 1];
      assert key == front + [last];
      KeysConcat(front, [last]);
      ResolveConcat(d.nodes, tbl, Keys(front), Keys([last]));
      assert Keys([last]) == [Key(last)];
      DottedWalkResolves(d, tbl, front);
    }
  }

  lemma {:induction false} DottedWalkResolves(d: Doc, at: Id, segments: seq<string>)
    requires DottedWalk(d, at, segments).Reached?
    ensures Resolve(d.nodes, at, Keys(segments))
            == if DottedWalk(d, at, segments).missing == [] then Some(DottedWalk(d, at, segments).at) else None
    decreases |segments|
  {
    if segments != [] && segments[0] in d.nodes[at].children {
      DottedWalkResolves(d, d.nodes[at].children[segments[0]], segments[1..]);
    }
  }

  lemma {:induction false} StaysOpen(d: Doc, e: Doc, id: Id)
    requires Extends(d, e) && IsOpenTable(d, id)
    ensures IsOpenTable(e, id)
  {
  }

  lemma {:induction false} ChildFacts(d: Doc, frozen: set<Id>, at: Id, k: string)
    requires Inv(d, frozen) && at < |d.nodes| && at !in frozen && d.nodes[at].Table? && k in d.nodes[at].children
    ensures at < d.nodes[at].children[k] < |d.nodes|
    ensures d.nodes[at].children[k] in frozen ==> !IsOpenTable(d, d.nodes[at].children[k])
  {
    assert PointsForward(d, at) && Seals(d, at, frozen);
  }

  // ---------- What the operations do to the tree ----------

  /** The node stands for this tree. */
  ghost predicate Stands(nodes: seq<Node>, id: Id, t: Tree) {
    Forward(nodes) && id < |nodes| && TreeOf(nodes, id) == t
  }

  /** Below `base`, a tree has been put at a path. */
  ghost predicate Puts(before: seq<Node>, now: seq<Node>, base: Id, path: seq<Step>, v: Tree) {
    && Forward(before) && Forward(now) && base < |before| && base < |now|
    && TreeOf(now, base) == Put(TreeOf(before, base), path, v)
  }

  /** Below `base`, a path has been made where it was missing. */
  ghost predicate Touches(before: seq<Node>, now: seq<Node>, base: Id, path: seq<Step>) {
    && Forward(before) && Forward(now) && base < |before| && base < |now|
    && TreeOf(now, base) == Touch(TreeOf(before, base), path)
  }

  lemma {:induction false} TouchNothing(nodes: seq<Node>, base: Id, path: seq<Step>)
    requires Forward(nodes) && base < |nodes| && Resolve(nodes, base, path).Some?
    ensures Touches(nodes, nodes, base, path)
  {
    TreeAtIsResolve(nodes, base, path);
  }

  /** A key that is missing now was missing before. */
  lemma {:induction false} MissingBefore(before: Doc, prior: Doc, base: Id, path: seq<Step>, at: Id, k: string)
    requires Extends(before, prior) && Resolve(prior.nodes, base, path) == Some(at)
    requires Child(prior.nodes, at, Key(k)).None?
    ensures Resolve(before.nodes, base, path + [Key(k)]).None?
  {
    ResolveSnoc(prior.nodes, base, path, Key(k));
    if Resolve(before.nodes, base, path + [Key(k)]).Some? { PathsSurvive(before, prior, base, path + [Key(k)]); }
  }

  /** A child put below a table that has been walked to, perhaps through tables made on the way. */
  lemma {:induction false} PutChild(
      before: Doc, prior: Doc, now: Doc, base: Id, path: seq<Step>, at: Id, k: string, id: Id, v: Tree)
    requires Touches(before.nodes, prior.nodes, base, path)
    requires Unshared(prior.nodes) && Resolve(prior.nodes, base, path) == Some(at)
    requires at < |prior.nodes| && prior.nodes[at].Table? && Forward(now.nodes) && SameBut(prior.nodes, now.nodes, at)
    requires now.nodes[at] == prior.nodes[at].(children := prior.nodes[at].children[k := id])
    requires Stands(now.nodes, id, v)
    ensures Puts(before.nodes, now.nodes, base, path + [Key(k)], v)
    ensures Resolve(now.nodes, base, path + [Key(k)]) == Some(id)
  {
    GraftChild(prior.nodes, now.nodes, base, path, at, k, id);
    PutThroughTouch(TreeOf(before.nodes, base), path, [Key(k)], v);
    TreeAtIsResolve(prior.nodes, base, path);
    PathKept(prior.nodes, now.nodes, base, path, at);
    ResolveSnoc(now.nodes, base, path, Key(k));
  }

  /** The way to a changed node is not changed. */
  lemma {:induction false} PathKept(d: seq<Node>, e: seq<Node>, r: Id, path: seq<Step>, at: Id)
    requires Forward(d) && SameBut(d, e, at) && r < |d| && Resolve(d, r, path) == Some(at)
    ensures Resolve(e, r, path) == Some(at)
    decreases |path|
  {
    if path != [] {
      ResolveForward(d, r, path);
      ChildForward(d, r, path[0]);
      assert e[r] == d[r] && Child(e, r, path[0]) == Child(d, r, path[0]);
      PathKept(d, e, Child(d, r, path[0]).value, path[1..], at);
    }
  }

  lemma {:induction false} EmptyStands(nodes: seq<Node>, id: Id)
    requires Forward(nodes) && id < |nodes| && nodes[id].Table? && nodes[id].children == map[]
    ensures Stands(nodes, id, EMPTY_BRANCH)
  {
  }

  /** An empty table made on the way. */
  lemma {:induction false} TouchChild(
      before: Doc, prior: Doc, now: Doc, base: Id, path: seq<Step>, at: Id, k: string, id: Id)
    requires Touches(before.nodes, prior.nodes, base, path) && Extends(before, prior)
    requires Unshared(prior.nodes) && Resolve(prior.nodes, base, path) == Some(at)
    requires at < |prior.nodes| && prior.nodes[at].Table? && k !in prior.nodes[at].children
    requires Forward(now.nodes) && SameBut(prior.nodes, now.nodes, at)
    requires now.nodes[at] == prior.nodes[at].(children := prior.nodes[at].children[k := id])
    requires id < |now.nodes| && now.nodes[id].Table? && now.nodes[id].children == map[]
    ensures Touches(before.nodes, now.nodes, base, path + [Key(k)])
    ensures Resolve(now.nodes, base, path + [Key(k)]) == Some(id)
  {
    EmptyStands(now.nodes, id);
    PutChild(before, prior, now, base, path, at, k, id, EMPTY_BRANCH);
    MissingBefore(before, prior, base, path, at, k);
    TreeAtIsResolve(before.nodes, base, path + [Key(k)]);
  }

  /** The walk of a header stands on `parent`, and what is left of the key leads on from there. */
  ghost predicate OnTheWay(before: Doc, now: Doc, front: seq<string>, i: nat, parent: Id, path: seq<Step>)
    requires i <= |front|
  {
    && Touches(before.nodes, now.nodes, ROOT, path) && parent < |now.nodes|
    && Resolve(now.nodes, ROOT, path) == Some(parent)
    && Follow(TreeOf(before.nodes, ROOT), front) == path + Follow(TreeOf(now.nodes, parent), front[i..])
  }

  lemma {:induction false} WayStarts(d: Doc, frozen: set<Id>, front: seq<string>)
    requires Inv(d, frozen)
    ensures OnTheWay(d, d, front, 0, ROOT, [])
  {
    InvIsForward(d, frozen);
    TouchNothing(d.nodes, ROOT, []);
    assert front[0..] == front;
    assert [] + Follow(TreeOf(d.nodes, ROOT), front) == Follow(TreeOf(d.nodes, ROOT), front);
  }

  lemma {:induction false} WayThroughTable(d: Doc, front: seq<string>, i: nat, parent: Id, path: seq<Step>, p: Id)
    requires i < |front| && OnTheWay(d, d, front, i, parent, path)
    requires Child(d.nodes, parent, Key(front[i])) == Some(p) && p < |d.nodes| && d.nodes[p].Table?
    ensures OnTheWay(d, d, front, i + 1, p, path + [Key(front[i])])
  {
    ResolveSnoc(d.nodes, ROOT, path, Key(front[i]));
    TouchNothing(d.nodes, ROOT, path + [Key(front[i])]);
    TreeStepIsChild(d.nodes, parent, Key(front[i]));
    assert front[i..][0] == front[i] && front[i..][1..] == front[i + 1..];
    Regroup(path, [Key(front[i])], Follow(TreeOf(d.nodes, p), front[i + 1..]));
  }

  lemma {:induction false} WayThroughArray(d: Doc, front: seq<string>, i: nat, parent: Id, path: seq<Step>, p: Id)
    requires i < |front| && OnTheWay(d, d, front, i, parent, path)
    requires Child(d.nodes, parent, Key(front[i])) == Some(p) && p < |d.nodes| && d.nodes[p].Array?
    requires d.nodes[p].elems != []
    ensures var n := |d.nodes[p].elems| - 1;
            OnTheWay(d, d, front, i + 1, d.nodes[p].elems[n], path + [Key(front[i]), Index(n)])
  {
    var n := |d.nodes[p].elems| - 1;
    var k := front[i];
    assert TreeOf(d.nodes, p).List? && |TreeOf(d.nodes, p).items| == |d.nodes[p].elems|;
    hide TreeOf, Resolve, Touches;
    ResolveSnoc(d.nodes, ROOT, path, Key(k));
    ResolveSnoc(d.nodes, ROOT, path + [Key(k)], Index(n));
    assert path + [Key(k), Index(n)] == path + [Key(k)] + [Index(n)];
    TouchNothing(d.nodes, ROOT, path + [Key(k), Index(n)]);
    TreeStepIsChild(d.nodes, parent, Key(k));
    TreeStepIsChild(d.nodes, p, Index(n));
    assert front[i..][0] == k && front[i..][1..] == front[i + 1..];
    Regroup(path, [Key(k), Index(n)], Follow(TreeOf(d.nodes, d.nodes[p].elems[n]), front[i + 1..]));
  }

  lemma {:induction false} WayThroughNew(
      before: Doc, prior: Doc, now: Doc, front: seq<string>, i: nat, parent: Id, path: seq<Step>, id: Id)
    requires i < |front| && OnTheWay(before, prior, front, i, parent, path) && Extends(before, prior)
    requires Unshared(prior.nodes) && prior.nodes[parent].Table? && front[i] !in prior.nodes[parent].children
    requires Forward(now.nodes) && SameBut(prior.nodes, now.nodes, parent)
    requires now.nodes[parent] == prior.nodes[parent].(children := prior.nodes[parent].children[front[i] := id])
    requires id < |now.nodes| && now.nodes[id].Table? && now.nodes[id].children == map[]
    ensures OnTheWay(before, now, front, i + 1, id, path + [Key(front[i])])
  {
    TouchChild(before, prior, now, ROOT, path, parent, front[i], id);
    EmptyStands(now.nodes, id);
    TreeStepIsChild(prior.nodes, parent, Key(front[i]));
    assert front[i..][0] == front[i] && front[i..][1..] == front[i + 1..];
    Regroup(path, [Key(front[i])], Keys(front[i + 1..]));
    assert Follow(EMPTY_BRANCH, front[i + 1..]) == Keys(front[i + 1..]);
  }

  /** The document after a header, against the meaning of that header. */
  ghost predicate HeaderMeans(before: Doc, now: Doc, key: seq<string>, isArray: bool, current: Id)
    requires key != []
  {
    && Forward(before.nodes) && Forward(now.nodes) && ROOT < |before.nodes| && ROOT < |now.nodes|
    && TreeOf(now.nodes, ROOT) == OpenHeader(TreeOf(before.nodes, ROOT), key, isArray).tree
    && Resolve(now.nodes, ROOT, OpenHeader(TreeOf(before.nodes, ROOT), key, isArray).path) == Some(current)
  }

  lemma {:induction false} ArrivedMeans(before: Doc, now: Doc, front: seq<string>, parent: Id, path: seq<Step>)
    requires OnTheWay(before, now, front, |front|, parent, path)
    ensures path == Follow(TreeOf(before.nodes, ROOT), front)
  {
  }

  lemma {:induction false} NewTableMeans(
      before: Doc, prior: Doc, now: Doc, parent: Id, path: seq<Step>, key: seq<string>)
    requires key != [] && OnTheWay(before, prior, key[..|key| - 1], |key| - 1, parent, path) && Extends(before, prior)
    requires Unshared(prior.nodes) && prior.nodes[parent].Table? && key[|key| - 1] !in prior.nodes[parent].children
    requires now == NewChild(prior, parent, key[|key| - 1], Table(map[], false)) && Forward(now.nodes)
    ensures HeaderMeans(before, now, key, false, |prior.nodes|)
  {
    ArrivedMeans(before, prior, key[..|key| - 1], parent, path);
    TouchChild(before, prior, now, ROOT, path, parent, key[|key| - 1], |prior.nodes|);
  }

  lemma {:induction false} OneTableStands(nodes: seq<Node>, arr: Id)
    requires Forward(nodes) && arr + 1 < |nodes| && nodes[arr] == Array([arr + 1])
    requires nodes[arr + 1] == Table(map[], false)
    ensures Stands(nodes, arr, List([EMPTY_BRANCH]))
  {
    EmptyStands(nodes, arr + 1);
    assert TreeOf(nodes, arr).items == [EMPTY_BRANCH];
  }

  lemma {:induction false} NewArrayMeans(
      before: Doc, prior: Doc, now: Doc, parent: Id, path: seq<Step>, key: seq<string>)
    requires key != [] && OnTheWay(before, prior, key[..|key| - 1], |key| - 1, parent, path) && Extends(before, prior)
    requires Unshared(prior.nodes) && prior.nodes[parent].Table? && key[|key| - 1] !in prior.nodes[parent].children
    requires now == NewTableArray(prior, parent, key[|key| - 1]) && Forward(now.nodes)
    ensures HeaderMeans(before, now, key, true, |prior.nodes| + 1)
  {
    var last, arr := key[|key| - 1], |prior.nodes|;
    ArrivedMeans(before, prior, key[..|key| - 1], parent, path);
    OneTableStands(now.nodes, arr);
    hide TreeOf, Stands, Follow, Unshared, Extends;
    PutChild(before, prior, now, ROOT, path, parent, last, arr, List([EMPTY_BRANCH]));
    MissingBefore(before, prior, ROOT, path, parent, last);
    TreeAtIsResolve(before.nodes, ROOT, path + [Key(last)]);
    assert [] + [EMPTY_BRANCH] == [EMPTY_BRANCH];
    ResolveSnoc(now.nodes, ROOT, path + [Key(last)], Index(0));
  }

  lemma {:induction false} PromotedMeans(d: Doc, now: Doc, parent: Id, path: seq<Step>, key: seq<string>, m: Id)
    requires key != [] && OnTheWay(d, d, key[..|key| - 1], |key| - 1, parent, path)
    requires Child(d.nodes, parent, Key(key[|key| - 1])) == Some(m) && now.nodes == d.nodes
    ensures HeaderMeans(d, now, key, false, m)
  {
    ArrivedMeans(d, d, key[..|key| - 1], parent, path);
    ResolveSnoc(d.nodes, ROOT, path, Key(key[|key| - 1]));
    TouchNothing(d.nodes, ROOT, path + [Key(key[|key| - 1])]);
  }

  lemma {:induction false} NewElementMeans(d: Doc, now: Doc, parent: Id, path: seq<Step>, key: seq<string>, m: Id)
    requires key != [] && OnTheWay(d, d, key[..|key| - 1], |key| - 1, parent, path) && Unshared(d.nodes)
    requires Child(d.nodes, parent, Key(key[|key| - 1])) == Some(m) && m < |d.nodes| && d.nodes[m].Array?
    requires now == NewElement(d, m) && Forward(now.nodes)
    ensures HeaderMeans(d, now, key, true, |d.nodes|)
  {
    var last := key[|key| - 1];
    var spot := path + [Key(last)];
    assert TreeOf(d.nodes, m).List? && |TreeOf(d.nodes, m).items| == |d.nodes[m].elems|;
    hide TreeOf, Follow, Unshared, Resolve;
    ArrivedMeans(d, d, key[..|key| - 1], parent, path);
    ResolveSnoc(d.nodes, ROOT, path, Key(last));
    EmptyStands(now.nodes, |d.nodes|);
    GraftItem(d.nodes, now.nodes, ROOT, spot, m, |d.nodes|);
    TreeAtIsResolve(d.nodes, ROOT, spot);
    PathKept(d.nodes, now.nodes, ROOT, spot, m);
    ResolveSnoc(now.nodes, ROOT, spot, Index(|d.nodes[m].elems|));
  }

  /** A value put at the end of a dotted key. */
  lemma {:induction false} InsertionPuts(
      before: Doc, prior: Doc, read: Doc, now: Doc, g: set<Id>, base: Id, path: seq<Step>, at: Id, k: string, id: Id,
      v: Tree)
    requires Touches(before.nodes, prior.nodes, base, path) && ValueFrame(prior, read) && Inv(read, g)
    requires Resolve(prior.nodes, base, path) == Some(at)
    requires at < id == |prior.nodes| && prior.nodes[at].Table? && now == Attach(read, at, k, id) && Inv(now, g)
    requires Stands(read.nodes, id, v)
    ensures Puts(before.nodes, now.nodes, base, path + [Key(k)], v)
  {
    InvIsForward(read, g);
    InvIsForward(now, g);
    assert Unshared(read.nodes);
    hide Inv, Unshared;
    TreeAbove(prior.nodes, read.nodes, 0, base);
    TreeAbove(read.nodes, now.nodes, at + 1, id);
    PathInPrefix(prior.nodes, read.nodes, base, path);
    PutChild(before, read, now, base, path, at, k, id, v);
  }

  lemma {:induction false} PathInPrefix(d: seq<Node>, e: seq<Node>, r: Id, path: seq<Step>)
    requires d <= e && Resolve(d, r, path).Some?
    ensures Resolve(e, r, path) == Resolve(d, r, path)
    decreases |path|
  {
    if path != [] {
      assert Child(e, r, path[0]) == Child(d, r, path[0]);
      PathInPrefix(d, e, Child(d, r, path[0]).value, path[1..]);
    }
  }

  /** One more item of an array value. */
  lemma {:induction false} ItemStands(prior: Doc, read: Doc, now: Doc, arr: Id, id: Id, items: seq<Syntax>, n: nat)
    requires n < |items| && ValueFrame(prior, read) && arr < id == |prior.nodes|
    requires Stands(prior.nodes, arr, List(ItemTrees(items[..n]))) && Stands(read.nodes, id, ValueTree(items[n]))
    requires Unshared(read.nodes) && read.nodes[arr].Array? && now == AddItem(read, arr, id) && Forward(now.nodes)
    ensures Stands(now.nodes, arr, List(ItemTrees(items[..n + 1])))
  {
    TreeAbove(prior.nodes, read.nodes, 0, arr);
    TreeAbove(read.nodes, now.nodes, arr + 1, id);
    GraftItem(read.nodes, now.nodes, arr, [], arr, id);
    assert items[..n + 1] == items[..n] + [items[n]];
    assert ItemTrees(items[..n + 1]) == ItemTrees(items[..n]) + [ValueTree(items[n])];
  }

  lemma {:induction false} NamedFollow(t: Tree, segments: seq<string>)
    ensures Named(Follow(t, segments)) == segments
    decreases |segments|
  {
    if segments != [] {
      var path := Follow(t, segments);
      if !t.Branch? || segments[0] !in t.children {
        NamedKeys(segments);
      } else {
        var sub := t.children[segments[0]];
        if sub.List? && sub.items != [] {
          var rest := Follow(sub.items[|sub.items| - 1], segments[1..]);
          NamedFollow(sub.items[|sub.items| - 1], segments[1..]);
          assert path[1..] == [Index(|sub.items| - 1)] + rest && path[1..][1..] == rest;
        } else {
          NamedFollow(sub, segments[1..]);
          assert path[1..] == Follow(sub, segments[1..]);
        }
      }
    }
  }

  lemma {:induction false} NamedHeader(t: Tree, key: seq<string>, isArray: bool)
    requires key != []
    ensures Named(OpenHeader(t, key, isArray).path) == key
  {
    var front, last := key[..|key| - 1], key[|key| - 1];
    var spot := Spot(t, key);
    NamedFollow(t, front);
    NamedConcat(Follow(t, front), [Key(last)]);
    NamedConcat(spot, [Index(|ItemsAt(t, spot)|)]);
    assert [Key(last)][1..] == [] && [Index(|ItemsAt(t, spot)|)][1..] == [];
    assert Named([Key(last)]) == [last] && Named([Index(|ItemsAt(t, spot)|)]) == [];
    assert key == front + [last];
  }

  /** Every key written has a segment. */
  predicate WellKeyed(statements: seq<Statement>) {
    forall i :: 0 <= i < |statements| ==>
      statements[i].key != [] && (statements[i].KeyValue? ==> KeysNonEmpty(statements[i].value))
  }

  lemma {:induction false} KeysSnoc(path: seq<Step>, front: seq<string>, i: nat)
    requires i < |front|
    ensures path + Keys(front[..i + 1]) == path + Keys(front[..i]) + [Key(front[i])]
  {
    assert front[..i + 1] == front[..i] + [front[i]];
    KeysConcat(front[..i], [front[i]]);
    assert Keys([front[i]]) == [Key(front[i])];
  }

  lemma {:induction false} KeyValueMeans(statements: seq<Statement>, n: nat, before: seq<Node>, now: seq<Node>)
    requires n < |statements| && WellKeyed(statements) && statements[n].KeyValue?
    requires Stands(before, ROOT, MeaningOf(statements, n).tree)
    requires Puts(before, now, ROOT, MeaningOf(statements, n).path + Keys(statements[n].key),
             ValueTree(statements[n].value))
    ensures Stands(now, ROOT, MeaningOf(statements, n + 1).tree)
    ensures MeaningOf(statements, n + 1).path == MeaningOf(statements, n).path
  {
  }

  /** An accepted key/value statement writes to a path none of the earlier ones wrote to. */
  lemma {:induction false} PathIsFresh(
      d: Doc, tbl: Id, statements: seq<Statement>, n: nat, paths: seq<seq<Step>>, currentPath: seq<Step>)
    requires n < |statements| && WellKeyed(statements) && statements[n].KeyValue? && |paths| == n
    requires Resolve(d.nodes, ROOT, currentPath) == Some(tbl)
    requires forall i :: 0 <= i < n && statements[i].KeyValue? ==> StandsAt(d, statements, i, paths[i])
    ensures InsertAllowed(d, tbl, statements[n].key) ==>
              forall i :: 0 <= i < n && statements[i].KeyValue? ==> paths[i] != currentPath + Keys(statements[n].key)
  {
    InsertIsNew(d, tbl, statements[n].key);
    ResolveConcat(d.nodes, ROOT, currentPath, Keys(statements[n].key));
    hide InsertAllowed, Denotes, Resolve;
    forall i | InsertAllowed(d, tbl, statements[n].key) && 0 <= i < n && statements[i].KeyValue?
      ensures paths[i] != currentPath + Keys(statements[n].key)
    {
      assert StandsAt(d, statements, i, paths[i]);
    }
  }

  lemma {:induction false} NewStands(d: Doc, tbl: Id, statements: seq<Statement>, n: nat, currentPath: seq<Step>)
    requires n < |statements| && statements[n].KeyValue? && Named(currentPath) == HeaderAt(statements, n)
    requires Resolve(d.nodes, ROOT, currentPath) == Some(tbl)
    requires DenotesEntry(d, tbl, statements[n].key, statements[n].value)
    ensures StandsAt(d, statements, n, currentPath + Keys(statements[n].key))
  {
    ResolveConcat(d.nodes, ROOT, currentPath, Keys(statements[n].key));
    NamedConcat(currentPath, Keys(statements[n].key));
    NamedKeys(statements[n].key);
  }

  lemma {:induction false} SealGrows(f: set<Id>, g: set<Id>, prior: Doc, read: Doc, from: Id)
    requires FrozenGrew(f, g, |prior.nodes|) && ValueFrame(prior, read) && from <= |prior.nodes|
    ensures var sealed := g + Range(|prior.nodes|, |read.nodes|);
            FrozenGrew(f, sealed, from) && forall x :: x in sealed ==> x in f || x >= |prior.nodes|
    ensures |prior.nodes| <= |read.nodes|
  {
  }

  /** Every value read so far stands where its statement put it, at paths that are all different. */
  ghost predicate Faithful(d: Doc, statements: seq<Statement>, n: nat, paths: seq<seq<Step>>)
    requires n <= |statements|
  {
    && |paths| == n
    && (forall i :: 0 <= i < n && statements[i].KeyValue? ==> StandsAt(d, statements, i, paths[i]))
    && (forall i, j :: 0 <= i < j < n && statements[i].KeyValue? && statements[j].KeyValue? ==> paths[i] != paths[j])
  }

  /** What a run has made of the first `n` statements. */
  ghost predicate RunsTo(
      d: Doc, table: Id, statements: seq<Statement>, n: nat, paths: seq<seq<Step>>, currentPath: seq<Step>)
    requires n <= |statements| && WellKeyed(statements)
  {
    && Faithful(d, statements, n, paths)
    && Stands(d.nodes, ROOT, MeaningOf(statements, n).tree) && currentPath == MeaningOf(statements, n).path
    && Resolve(d.nodes, ROOT, currentPath) == Some(table)
    && Named(currentPath) == HeaderAt(statements, n)
  }

  lemma {:induction false} RunStandsAt(
      d: Doc, table: Id, statements: seq<Statement>, n: nat, paths: seq<seq<Step>>, currentPath: seq<Step>)
    requires n <= |statements| && WellKeyed(statements) && RunsTo(d, table, statements, n, paths, currentPath)
    ensures Resolve(d.nodes, ROOT, currentPath) == Some(table)
  {
  }

  lemma {:induction false} FaithfulStep(
      d: Doc, statements: seq<Statement>, n: nat, paths: seq<seq<Step>>, path: seq<Step>)
    requires n < |statements| && |paths| == n
    requires forall i :: 0 <= i < n && statements[i].KeyValue? ==> StandsAt(d, statements, i, paths[i])
    requires forall i, j :: 0 <= i < j < n && statements[i].KeyValue? && statements[j].KeyValue? ==>
               paths[i] != paths[j]
    requires statements[n].KeyValue? ==> StandsAt(d, statements, n, path)
    requires statements[n].KeyValue? ==> forall i :: 0 <= i < n && statements[i].KeyValue? ==> paths[i] != path
    ensures Faithful(d, statements, n + 1, paths + [path])
  {
  }

  lemma {:induction false} HeaderRuns(
      before: Doc, now: Doc, table: Id, statements: seq<Statement>, n: nat, paths: seq<seq<Step>>,
      currentPath: seq<Step>)
    returns (nextPath: seq<Step>)
    requires n < |statements| && WellKeyed(statements) && statements[n].Header? && Extends(before, now)
    requires exists t :: RunsTo(before, t, statements, n, paths, currentPath)
    requires forall x :: 0 <= x < |before.nodes| ==> PointsForward(before, x)
    requires HeaderMeans(before, now, statements[n].key, statements[n].isArray, table)
    ensures RunsTo(now, table, statements, n + 1, paths + [[]], nextPath)
  {
    AllStand(before, now, statements, n, paths);
    FaithfulStep(now, statements, n, paths, []);
    NamedHeader(MeaningOf(statements, n).tree, statements[n].key, statements[n].isArray);
    nextPath := MeaningOf(statements, n + 1).path;
    hide OpenHeader, StandsAt, Extends, PointsForward, Resolve, NodeExtends, Faithful;
  }

  lemma {:induction false} KeyValueRuns(
      before: Doc, now: Doc, table: Id, statements: seq<Statement>, n: nat, paths: seq<seq<Step>>,
      currentPath: seq<Step>)
    requires n < |statements| && WellKeyed(statements) && statements[n].KeyValue? && Extends(before, now)
    requires RunsTo(before, table, statements, n, paths, currentPath)
    requires forall x :: 0 <= x < |before.nodes| ==> PointsForward(before, x)
    requires InsertAllowed(before, table, statements[n].key)
    requires DenotesEntry(now, table, statements[n].key, statements[n].value)
    requires Puts(before.nodes, now.nodes, ROOT, currentPath + Keys(statements[n].key), ValueTree(statements[n].value))
    ensures RunsTo(now, table, statements, n + 1, paths + [currentPath + Keys(statements[n].key)], currentPath)
  {
    PathIsFresh(before, table, statements, n, paths, currentPath);
    KeyValueMeans(statements, n, before.nodes, now.nodes);
    AllStand(before, now, statements, n, paths);
    PathsSurvive(before, now, ROOT, currentPath);
    NewStands(now, table, statements, n, currentPath);
    FaithfulStep(now, statements, n, paths, currentPath + Keys(statements[n].key));
    hide *;
  }

  // ---------- When an inline table accepts a key ----------

  /** The key leads to a table that further keys may enter. */
  ghost predicate Passes(d: Doc, tbl: Id, q: seq<string>) {
    && Resolve(d.nodes, tbl, Keys(q)).Some?
    && MayEnter(d, Resolve(d.nodes, tbl, Keys(q)).value)
  }

  /** Every proper part of the key does. */
  ghost predicate PartsPass(d: Doc, tbl: Id, key: seq<string>) {
    forall m :: 0 < m < |key| ==> Passes(d, tbl, key[..m])
  }

  lemma {:induction false} PassesSurvives(d: Doc, e: Doc, tbl: Id, q: seq<string>)
    requires Extends(d, e) && d.dottedKeyTables <= e.dottedKeyTables && d.implicitTables == e.implicitTables
    requires Passes(d, tbl, q)
    ensures Passes(e, tbl, q)
  {
    PathsSurvive(d, e, tbl, Keys(q));
    var id := Resolve(d.nodes, tbl, Keys(q)).value;
    assert NodeExtends(d.nodes[id], e.nodes[id], id in d.tableArrays);
  }

  lemma {:induction false} PartsSurvive(d: Doc, e: Doc, tbl: Id, key: seq<string>)
    requires Extends(d, e) && d.dottedKeyTables <= e.dottedKeyTables && d.implicitTables == e.implicitTables
    requires PartsPass(d, tbl, key)
    ensures PartsPass(e, tbl, key)
  {
    forall m | 0 < m < |key| ensures Passes(e, tbl, key[..m]) { PassesSurvives(d, e, tbl, key[..m]); }
  }

  ghost predicate AllPass(d: Doc, tbl: Id, front: seq<string>, i: nat)
    requires i <= |front|
  {
    forall m :: 0 < m <= i ==> Passes(d, tbl, front[..m])
  }

  lemma {:induction false} AllPassStep(d: Doc, e: Doc, tbl: Id, front: seq<string>, i: nat)
    requires i < |front| && AllPass(d, tbl, front, i) && Extends(d, e)
    requires d.dottedKeyTables <= e.dottedKeyTables && d.implicitTables == e.implicitTables
    requires Passes(e, tbl, front[..i + 1])
    ensures AllPass(e, tbl, front, i + 1)
  {
    forall m | 0 < m <= i ensures Passes(e, tbl, front[..m]) { PassesSurvives(d, e, tbl, front[..m]); }
  }

  lemma {:induction false} PartOfPart(key: seq<string>, n: nat, m: nat)
    requires m <= n <= |key|
    ensures key[..n][..m] == key[..m]
  {
  }

  lemma {:induction false} ApartTails(p: seq<string>, q: seq<string>)
    requires !Comparable(p, q)
    ensures p != [] && q != []
    ensures p[0] == q[0] ==> p[1..] != [] && q[1..] != [] && !Comparable(p[1..], q[1..])
  {
    if p[0] == q[0] {
      assert p == [p[0]] + p[1..] && q == [q[0]] + q[1..];
      assert p[1..] <= q[1..] ==> p <= q;
      assert q[1..] <= p[1..] ==> q <= p;
    }
  }

  /** Putting a tree at one key makes nothing at a key apart from it. */
  lemma {:induction false} PutElsewhere(t: Tree, p: seq<string>, q: seq<string>, v: Tree)
    requires !Comparable(p, q)
    ensures TreeAt(Put(t, Keys(p), v), Keys(q)).Some? == TreeAt(t, Keys(q)).Some?
    decreases |p|
  {
    ApartTails(p, q);
    hide Comparable;
    if p[0] == q[0] {
      if t.Branch? {
        PutElsewhere(if p[0] in t.children then t.children[p[0]] else EMPTY_BRANCH, p[1..], q[1..], v);
      }
    }
  }

  lemma {:induction false} NothingElsewhere(entries: seq<Entry>, q: seq<string>)
    requires q != [] && forall j :: 0 <= j < |entries| ==> !Comparable(entries[j].key, q)
    ensures TreeAt(EntriesTree(entries), Keys(q)).None?
  {
    if entries != [] {
      var n := |entries| - 1;
      NothingElsewhere(entries[..n], q);
      PutElsewhere(EntriesTree(entries[..n]), entries[n].key, q, ValueTree(entries[n].value));
    }
  }

  /** Where every part that is there may be entered, the walk is not stopped. */
  lemma {:induction false} DottedWalkReaches(d: Doc, at: Id, segments: seq<string>)
    requires at < |d.nodes| && d.nodes[at].Table?
    requires forall m :: 0 < m <= |segments| && Resolve(d.nodes, at, Keys(segments[..m])).Some? ==>
               Passes(d, at, segments[..m])
    ensures DottedWalk(d, at, segments).Reached?
    decreases |segments|
  {
    if segments != [] && segments[0] in d.nodes[at].children {
      var p := d.nodes[at].children[segments[0]];
      var rest := segments[1..];
      assert segments[..1] == [segments[0]] && Keys(segments[..1]) == [Key(segments[0])]
        && [Key(segments[0])][1..] == [];
      assert Resolve(d.nodes, at, [Key(segments[0])]) == Some(p);
      assert Passes(d, at, segments[..1]);
      forall m | 0 < m <= |rest| && Resolve(d.nodes, p, Keys(rest[..m])).Some? ensures Passes(d, p, rest[..m]) {
        assert segments[..m + 1] == [segments[0]] + rest[..m];
        assert Keys(segments[..m + 1])[1..] == Keys(rest[..m]);
        assert Passes(d, at, segments[..m + 1]);
      }
      DottedWalkReaches(d, p, rest);
    }
  }

  /** A part that may not be entered stops the walk. */
  lemma {:induction false} DottedWalkStops(d: Doc, at: Id, segments: seq<string>, m: nat)
    requires 0 < m <= |segments| && Resolve(d.nodes, at, Keys(segments[..m])).Some? && !Passes(d, at, segments[..m])
    ensures DottedWalk(d, at, segments) == Blocked
    decreases |segments|
  {
    assert segments[..m] == [segments[0]] + segments[1..][..m - 1];
    assert Keys(segments[..m])[1..] == Keys(segments[1..][..m - 1]);
    var p := d.nodes[at].children[segments[0]];
    if m > 1 && p < |d.nodes| && d.nodes[p].Table? { DottedWalkStops(d, p, segments[1..], m - 1); }
  }

  ghost predicate Holds(d: Doc, tbl: Id, entries: seq<Entry>, n: nat)
    requires n <= |entries|
  {
    && tbl < |d.nodes| && d.nodes[tbl].Table? && Stands(d.nodes, tbl, EntriesTree(entries[..n]))
    && (forall j :: 0 <= j < n ==> DenotesEntry(d, tbl, entries[j].key, entries[j].value))
    && (forall j :: 0 <= j < n ==> PartsPass(d, tbl, entries[j].key))
  }

  lemma {:induction false} ApartIsAllowed(d: Doc, tbl: Id, entries: seq<Entry>, n: nat, key: seq<string>)
    requires n <= |entries| && key != [] && Holds(d, tbl, entries, n)
    requires forall j :: 0 <= j < n ==> !Comparable(entries[j].key, key)
    ensures InsertAllowed(d, tbl, key)
  {
    var front := key[..|key| - 1];
    forall m | 0 < m <= |front| && Resolve(d.nodes, tbl, Keys(front[..m])).Some? ensures Passes(d, tbl, front[..m]) {
      PartOfPart(key, |key| - 1, m);
      PartPasses(d, tbl, entries, n, key, m);
    }
    DottedWalkReaches(d, tbl, front);
    KeyIsAbsent(d, tbl, entries, n, key);
    KeysConcat(front, [key[|key| - 1]]);
    assert key == front + [key[|key| - 1]] && Keys([key[|key| - 1]]) == [Key(key[|key| - 1])];
    ResolveSnoc(d.nodes, tbl, Keys(front), Key(key[|key| - 1]));
    DottedWalkResolves(d, tbl, front);
    DottedWalkStands(d, tbl, front);
  }

  lemma {:induction false} DottedWalkStands(d: Doc, at: Id, segments: seq<string>)
    requires at < |d.nodes| && d.nodes[at].Table? && DottedWalk(d, at, segments).Reached?
    ensures DottedWalk(d, at, segments).at < |d.nodes| && d.nodes[DottedWalk(d, at, segments).at].Table?
    decreases |segments|
  {
    if segments != [] && segments[0] in d.nodes[at].children {
      DottedWalkStands(d, d.nodes[at].children[segments[0]], segments[1..]);
    }
  }

  lemma {:induction false} KeyIsAbsent(d: Doc, tbl: Id, entries: seq<Entry>, n: nat, key: seq<string>)
    requires n <= |entries| && key != [] && Holds(d, tbl, entries, n)
    requires forall j :: 0 <= j < n ==> !Comparable(entries[j].key, key)
    ensures Resolve(d.nodes, tbl, Keys(key)).None?
  {
    NothingElsewhere(entries[..n], key);
    TreeAtIsResolve(d.nodes, tbl, Keys(key));
  }

  lemma {:induction false} PartPasses(d: Doc, tbl: Id, entries: seq<Entry>, n: nat, key: seq<string>, m: nat)
    requires n <= |entries| && 0 < m < |key| && Holds(d, tbl, entries, n)
    requires forall j :: 0 <= j < n ==> !Comparable(entries[j].key, key)
    requires Resolve(d.nodes, tbl, Keys(key[..m])).Some?
    ensures Passes(d, tbl, key[..m])
  {
    var q := key[..m];
    if forall j :: 0 <= j < n ==> !Comparable(entries[j].key, q) { KeyIsAbsent(d, tbl, entries, n, q); }
    var j :| 0 <= j < n && Comparable(entries[j].key, q);
    var other := entries[j].key;
    PrefixOfPrefix(other, q, key);
    assert PartsPass(d, tbl, other) && other[..m] == q;
  }

  lemma {:induction false} PrefixOfPrefix(other: seq<string>, q: seq<string>, key: seq<string>)
    requires q <= key && Comparable(other, q) && !Comparable(other, key)
    ensures q <= other && |q| < |other|
  {
  }

  lemma {:induction false} ShorterIsRefused(d: Doc, tbl: Id, other: seq<string>, key: seq<string>)
    requires key != [] && key <= other && Resolve(d.nodes, tbl, Keys(other)).Some?
    ensures !InsertAllowed(d, tbl, key)
  {
    InsertIsNew(d, tbl, key);
    KeysConcat(key, other[|key|..]);
    assert other == key + other[|key|..];
    ResolveConcat(d.nodes, tbl, Keys(key), Keys(other[|key|..]));
  }

  lemma {:induction false} LongerIsRefused(
      d: Doc, frozen: set<Id>, tbl: Id, other: seq<string>, key: seq<string>, value: Syntax)
    requires key != [] && other != [] && other <= key && |other| < |key| && Inv(d, frozen)
    requires DenotesEntry(d, tbl, other, value)
    ensures !InsertAllowed(d, tbl, key)
  {
    var front, m := key[..|key| - 1], |other|;
    assert front[..m] == other;
    OpenTables(d, frozen);
    ValueIsClosed(d, Resolve(d.nodes, tbl, Keys(other)).value, value);
    hide Denotes, Inv;
    DottedWalkStops(d, tbl, front, m);
  }

  lemma {:induction false} ClashIsRefused(
      d: Doc, frozen: set<Id>, tbl: Id, entries: seq<Entry>, n: nat, key: seq<string>, j: nat)
    requires n <= |entries| && key != [] && Holds(d, tbl, entries, n) && Inv(d, frozen)
    requires j < n && Comparable(entries[j].key, key) && entries[j].key != []
    ensures !InsertAllowed(d, tbl, key)
  {
    assert DenotesEntry(d, tbl, entries[j].key, entries[j].value);
    hide InsertAllowed, Inv, Denotes;
    if key <= entries[j].key {
      ShorterIsRefused(d, tbl, entries[j].key, key);
    } else {
      LongerIsRefused(d, frozen, tbl, entries[j].key, key, entries[j].value);
    }
  }

  lemma {:induction false} ValueIsClosed(d: Doc, id: Id, value: Syntax)
    requires Denotes(d, id, value)
    ensures !IsOpenTable(d, id)
  {
  }

  /** A key is accepted exactly when it is apart from every key the inline table has. */
  lemma {:induction false} InlineAllowed(
      d: Doc, frozen: set<Id>, tbl: Id, entries: seq<Entry>, n: nat, key: seq<string>)
    requires n <= |entries| && key != [] && Holds(d, tbl, entries, n) && Inv(d, frozen)
    requires forall j :: 0 <= j < n ==> entries[j].key != []
    ensures InsertAllowed(d, tbl, key) <==> forall j :: 0 <= j < n ==> !Comparable(entries[j].key, key)
  {
    hide InsertAllowed, Holds, Inv;
    if forall j :: 0 <= j < n ==> !Comparable(entries[j].key, key) {
      ApartIsAllowed(d, tbl, entries, n, key);
    } else {
      var j :| 0 <= j < n && Comparable(entries[j].key, key);
      ClashIsRefused(d, frozen, tbl, entries, n, key, j);
    }
  }

  lemma {:induction false} PartsPassStored(
      before: Doc, prior: Doc, read: Doc, now: Doc, f: set<Id>, g: set<Id>, tbl: Id, at: Id, last: string, id: Id,
      key: seq<string>)
    requires PartsPass(prior, tbl, key) && ValueFrame(prior, read) && Inv(prior, f) && Inv(read, g)
    requires at < id == |prior.nodes| < |read.nodes| && at !in g && prior.nodes[at].Table?
    requires last !in prior.nodes[at].children
    requires !IsOpenTable(read, id) && read.nodes[at] == prior.nodes[at] && now == Attach(read, at, last, id)
    ensures PartsPass(now, tbl, key)
  {
    ValueExtends(prior, read, f);
    PartsSurvive(prior, read, tbl, key);
    ValueIsUnlinked(prior, read, f, g);
    AttachKeeps(read, g, at, last, id);
    PartsSurvive(read, now, tbl, key);
  }

  /** What is kept while an inline table is open. */
  ghost predicate ReadingInline(before: Doc, d: Doc, f: set<Id>, frozen: set<Id>, entries: seq<Entry>, i: nat)
    requires i <= |entries|
  {
    && Inv(d, frozen) && FrozenGrew(f, frozen, |before.nodes| + 1)
    && before.nodes <= d.nodes && Recorded(before, d)
    && d.implicitTables == before.implicitTables && d.tableArrays == before.tableArrays
    && before.dottedKeyTables <= d.dottedKeyTables
    && d.openInlineTables == before.openInlineTables + [|before.nodes|]
    && var tbl := |before.nodes|;
       && tbl < |d.nodes| && tbl !in frozen && d.nodes[tbl].Table? && d.nodes[tbl].isInline
       && Holds(d, tbl, entries, i)
  }

  /** An entry that is refused spoils the table. */
  lemma {:induction false} OneMoreAllowed(entries: seq<Entry>, i: nat, nested: nat)
    requires i < |entries| && EntriesAllowed(entries, i, nested)
    ensures EntriesAllowed(entries, i + 1, nested) == EntryAllowed(entries, i, nested)
    ensures !EntryAllowed(entries, i, nested) ==> !EntriesAllowed(entries, |entries|, nested)
  {
    if !EntryAllowed(entries, i, nested) { StaysRefused(entries, i + 1, |entries|, nested); }
  }

  lemma {:induction false} StaysRefused(entries: seq<Entry>, m: nat, n: nat, nested: nat)
    requires m <= n <= |entries| && !EntriesAllowed(entries, m, nested)
    ensures !EntriesAllowed(entries, n, nested)
    decreases n
  {
    if m < n { StaysRefused(entries, m, n - 1, nested); }
  }

  lemma {:induction false} NoneRefused(entries: seq<Entry>, nested: nat)
    ensures EntriesAllowed(entries, 0, nested)
  {
  }

  lemma {:induction false} InlineStarts(d: Doc, frozen: set<Id>, entries: seq<Entry>)
    requires Inv(d, frozen)
    ensures ReadingInline(d, Append(d, Table(map[], true)).(openInlineTables := d.openInlineTables + [|d.nodes|]),
            frozen, frozen, entries, 0)
  {
    var e := Append(d, Table(map[], true));
    AppendKeeps(d, frozen, Table(map[], true));
    RecordedNothing(d, e, frozen, Table(map[], true));
    OpenListKeeps(e, frozen, d.openInlineTables + [|d.nodes|]);
    InvIsForward(e, frozen);
    EmptyStands(e.nodes, |d.nodes|);
    assert entries[..0] == [];
    hide Inv, Stands;
  }

  lemma {:induction false} InlineIsOpen(before: Doc, d: Doc, f: set<Id>, frozen: set<Id>, entries: seq<Entry>, i: nat)
    requires i < |entries| && ReadingInline(before, d, f, frozen, entries, i)
    requires forall j :: 0 <= j <= i ==> entries[j].key != []
    ensures Inv(d, frozen)
    ensures |before.nodes| < |d.nodes| && d.nodes[|before.nodes|].Table? && |before.nodes| !in frozen
    ensures Resolve(d.nodes, |before.nodes|, []) == Some(|before.nodes|)
    ensures InsertAllowed(d, |before.nodes|, entries[i].key)
            <==> forall j :: 0 <= j < i ==> !Comparable(entries[j].key, entries[i].key)
  {
    InlineAllowed(d, frozen, |before.nodes|, entries, i, entries[i].key);
    hide InsertAllowed, Comparable, Holds, Inv;
  }

  lemma {:induction false} EntryAllowedHere(d: Doc, tbl: Id, entries: seq<Entry>, i: nat, nested: nat)
    requires i < |entries| && entries[i].key != []
    requires InsertAllowed(d, tbl, entries[i].key)
             <==> forall j :: 0 <= j < i ==> !Comparable(entries[j].key, entries[i].key)
    ensures EntryAllowed(entries, i, nested)
            <==> InsertAllowed(d, tbl, entries[i].key) && ValueAllowed(entries[i].value, nested)
  {
    hide InsertAllowed, Comparable, ValueAllowed;
  }

  /** One more entry. */
  lemma {:induction false} InlineContinues(
      before: Doc, prior: Doc, d: Doc, f: set<Id>, frozen: set<Id>, g: set<Id>, entries: seq<Entry>, i: nat)
    requires i < |entries| && (forall j :: 0 <= j <= i ==> entries[j].key != [])
    requires ReadingInline(before, prior, f, frozen, entries, i)
    requires Inv(d, g) && Extends(prior, d) && InsertFrame(prior, d, |before.nodes|)
    requires FrozenGrew(frozen, g, |prior.nodes|)
    requires Recorded(prior, d) && |before.nodes| !in g
    requires PartsPass(d, |before.nodes|, entries[i].key)
    requires DenotesEntry(d, |before.nodes|, entries[i].key, entries[i].value)
    requires Puts(prior.nodes, d.nodes, |before.nodes|, [] + Keys(entries[i].key), ValueTree(entries[i].value))
    ensures ReadingInline(before, d, f, g, entries, i + 1)
  {
    var tbl := |before.nodes|;
    ExtendsKeepsOpenness(prior, d);
    RecordedThen(before, prior, d);
    StaysInline(prior, d, tbl);
    AllPointForward(prior, frozen);
    EntriesSurvive(prior, d, frozen, tbl, entries, i);
    assert before.nodes <= d.nodes;
    hide Inv, Recorded, LinksFresh, Extends, DenotesEntry, PointsForward, Denotes;
    forall j | 0 <= j < i ensures PartsPass(d, tbl, entries[j].key) { PartsSurvive(prior, d, tbl, entries[j].key); }
    assert [] + Keys(entries[i].key) == Keys(entries[i].key);
    assert entries[..i + 1][..i] == entries[..i];
  }

  /** Closing the table changes the list of open tables and nothing else. */
  lemma {:induction false} InlineIsRead(before: Doc, d: Doc, f: set<Id>, frozen: set<Id>, entries: seq<Entry>)
    requires ReadingInline(before, d, f, frozen, entries, |entries|)
    ensures |d.openInlineTables| > 0
    ensures var e := d.(openInlineTables := d.openInlineTables[..|d.openInlineTables| - 1]);
            && Inv(e, frozen) && ValueFrame(before, e) && FrozenGrew(f, frozen, |before.nodes|)
            && |before.nodes| < |e.nodes| && Denotes(e, |before.nodes|, InlineSyntax(entries))
            && Stands(e.nodes, |before.nodes|, ValueTree(InlineSyntax(entries))) && Recorded(before, e)
  {
    var e := d.(openInlineTables := d.openInlineTables[..|d.openInlineTables| - 1]);
    OpenListKeeps(d, frozen, before.openInlineTables);
    assert entries[..|entries|] == entries && e.openInlineTables == before.openInlineTables;
    assert forall x :: 0 <= x < |d.nodes| ==> PointsForward(d, x);
    hide Inv, Stands, PartsPass, PointsForward;
    EntriesSurvive(d, e, frozen, |before.nodes|, entries, |entries|);
  }

  // ---------- Where new links lead ----------

  /** Whatever an older node points to since then is a newer node. */
  ghost predicate LinksFresh(d: seq<Node>, e: seq<Node>) {
    && |d| <= |e|
    && forall a: Id, s :: a < |d| && Child(e, a, s).Some? ==>
         Child(e, a, s) == Child(d, a, s) || Child(e, a, s).value >= |d|
  }

  lemma {:induction false} LinksFreshThen(d: seq<Node>, e: seq<Node>, f: seq<Node>)
    requires LinksFresh(d, e) && LinksFresh(e, f)
    ensures LinksFresh(d, f)
  {
    forall a: Id, s | a < |d| && Child(f, a, s).Some?
      ensures Child(f, a, s) == Child(d, a, s) || Child(f, a, s).value >= |d|
    {
      assert Child(f, a, s) == Child(e, a, s) || Child(f, a, s).value >= |e|;
    }
  }

  lemma {:induction false} AppendedLinks(d: seq<Node>, e: seq<Node>)
    requires d <= e
    ensures LinksFresh(d, e)
  {
    forall a: Id, s | a < |d| ensures Child(e, a, s) == Child(d, a, s) { assert e[a] == d[a]; }
  }

  /** A path that led nowhere and leads somewhere now leads to a new node. */
  lemma {:induction false} NewPathIsFresh(d: seq<Node>, e: seq<Node>, r: Id, path: seq<Step>)
    requires LinksFresh(d, e) && Forward(e) && r < |d|
    requires Resolve(d, r, path).None? && Resolve(e, r, path).Some?
    ensures Resolve(e, r, path).value >= |d|
    decreases |path|
  {
    var c := Child(e, r, path[0]).value;
    if c < |d| {
      NewPathIsFresh(d, e, c, path[1..]);
    } else {
      ResolveForward(e, c, path[1..]);
    }
  }

  // ---------- What the lists record ----------

  /** Of the tables made since, exactly those that are no inline tables are recorded as made by dotted keys;
      the record of older tables is as it was. */
  ghost predicate Recorded(d: Doc, e: Doc) {
    && |d.nodes| <= |e.nodes|
    && (forall id :: 0 <= id < |d.nodes| ==> (id in e.dottedKeyTables <==> id in d.dottedKeyTables))
    && (forall id :: |d.nodes| <= id < |e.nodes| ==> (id in e.dottedKeyTables <==> IsOpenTable(e, id)))
    && LinksFresh(d.nodes, e.nodes)
  }

  ghost predicate SameOpenness(e: Doc, f: Doc) {
    |e.nodes| <= |f.nodes| && forall id :: 0 <= id < |e.nodes| ==> (IsOpenTable(f, id) <==> IsOpenTable(e, id))
  }

  lemma {:induction false} ExtendsKeepsOpenness(e: Doc, f: Doc)
    requires Extends(e, f)
    ensures SameOpenness(e, f)
  {
    forall id | 0 <= id < |e.nodes| ensures IsOpenTable(f, id) <==> IsOpenTable(e, id) {
      assert NodeExtends(e.nodes[id], f.nodes[id], id in e.tableArrays);
    }
  }

  lemma {:induction false} RecordedThen(d: Doc, e: Doc, f: Doc)
    requires Recorded(d, e) && Recorded(e, f) && SameOpenness(e, f)
    ensures Recorded(d, f)
  {
    LinksFreshThen(d.nodes, e.nodes, f.nodes);
    hide LinksFresh;
  }

  lemma {:induction false} RecordedNothing(d: Doc, e: Doc, frozen: set<Id>, n: Node)
    requires Inv(d, frozen) && e == Append(d, n) && (n.Table? ==> n.isInline)
    ensures Recorded(d, e)
  {
    OpenTables(d, frozen);
    AppendedLinks(d.nodes, e.nodes);
    hide LinksFresh;
  }

  lemma {:induction false} RecordedDotted(d: Doc, frozen: set<Id>, at: Id, k: string)
    requires Inv(d, frozen) && at < |d.nodes| && d.nodes[at].Table?
    ensures Recorded(d, NewDotted(d, at, k)) && SameOpenness(d, NewDotted(d, at, k))
  {
    OpenTables(d, frozen);
    NewChildLinks(d, at, k, Table(map[], false));
    hide LinksFresh;
  }

  lemma {:induction false} NewChildLinks(d: Doc, at: Id, k: string, n: Node)
    requires at < |d.nodes| && d.nodes[at].Table?
    ensures LinksFresh(d.nodes, NewChild(d, at, k, n).nodes)
  {
    var e := NewChild(d, at, k, n);
    forall a: Id, s | a < |d.nodes| && Child(e.nodes, a, s).Some?
      ensures Child(e.nodes, a, s) == Child(d.nodes, a, s) || Child(e.nodes, a, s).value >= |d.nodes|
    {
      if a != at { assert e.nodes[a] == d.nodes[a]; }
    }
  }

  /** Two changes in a row: nodes at the end, then one link to the first of them. */
  lemma {:induction false} LinkedAfter(d: seq<Node>, read: seq<Node>, e: seq<Node>, at: Id, step: Step)
    requires d <= read && |read| <= |e|
    requires forall a: Id, s :: Child(e, a, s) == if a == at && s == step then Some(|d|) else Child(read, a, s)
    ensures LinksFresh(d, e)
  {
    AppendedLinks(d, read);
    forall a: Id, s | a < |d| && Child(e, a, s).Some?
      ensures Child(e, a, s) == Child(d, a, s) || Child(e, a, s).value >= |d|
    {
      assert Child(e, a, s) == if a == at && s == step then Some(|d|) else Child(read, a, s);
    }
  }

  lemma {:induction false} RecordedItem(before: Doc, prior: Doc, read: Doc, arr: Id, id: Id)
    requires Recorded(before, prior) && Recorded(prior, read) && ValueFrame(prior, read)
    requires arr < |read.nodes| && read.nodes[arr].Array? && id == |prior.nodes|
    ensures Recorded(before, AddItem(read, arr, id))
  {
    var now := AddItem(read, arr, id);
    AddItemLinks(read.nodes, arr, id);
    LinkedAfter(prior.nodes, read.nodes, now.nodes, arr, Index(|read.nodes[arr].elems|));
    hide LinksFresh;
    assert SameOpenness(prior, read) && SameOpenness(read, now);
    RecordedThen(before, prior, now);
  }

  lemma {:induction false} RecordedStored(before: Doc, prior: Doc, read: Doc, at: Id, k: string, id: Id)
    requires Recorded(before, prior) && Recorded(prior, read) && ValueFrame(prior, read)
    requires at < |read.nodes| && read.nodes[at].Table? && id == |prior.nodes|
    ensures Recorded(before, Attach(read, at, k, id))
  {
    var now := Attach(read, at, k, id);
    AttachLinks(read.nodes, at, k, id);
    LinkedAfter(prior.nodes, read.nodes, now.nodes, at, Key(k));
    hide LinksFresh;
    assert SameOpenness(prior, read) && SameOpenness(read, now);
    RecordedThen(before, prior, now);
  }

  /** On the way to a header only implicit tables are made, and each is recorded as implicit. */
  ghost predicate OnlyImplicit(before: Doc, now: Doc) {
    && |before.nodes| <= |now.nodes| && now.dottedKeyTables == before.dottedKeyTables
    && now.openInlineTables == before.openInlineTables && now.tableArrays == before.tableArrays
    && (forall id :: id in now.implicitTables <==> id in before.implicitTables || |before.nodes| <= id < |now.nodes|)
    && (forall id :: |before.nodes| <= id < |now.nodes| ==> IsOpenTable(now, id))
    && LinksFresh(before.nodes, now.nodes)
  }

  /** What a header leaves in the lists: the tables made on the way are implicit, an array made for it is an
      array of tables, and its own table, which is new or was implicit, is not implicit any more. */
  ghost predicate HeaderRecords(before: Doc, now: Doc, current: Id) {
    && |before.nodes| <= |now.nodes| && now.dottedKeyTables == before.dottedKeyTables
    && now.openInlineTables == before.openInlineTables
    && (current >= |before.nodes| || current in before.implicitTables)
    && (forall id :: 0 <= id < |before.nodes| ==>
          && (id in now.implicitTables <==> id in before.implicitTables && id != current)
          && (id in now.tableArrays <==> id in before.tableArrays))
    && (forall id :: |before.nodes| <= id < |now.nodes| ==>
          && (IsOpenTable(now, id) || now.nodes[id].Array?)
          && (id in now.implicitTables <==> IsOpenTable(now, id) && id != current)
          && (id in now.tableArrays <==> now.nodes[id].Array?))
    && LinksFresh(before.nodes, now.nodes)
  }

  /** The tables made on the way, and then what the header itself does. */
  lemma {:induction false} RecordsThen(before: Doc, prior: Doc, now: Doc, frozen: set<Id>, current: Id)
    requires OnlyImplicit(before, prior) && HeaderRecords(prior, now, current) && Extends(prior, now)
    requires Inv(before, frozen)
    requires current >= |prior.nodes| || before == prior
    ensures HeaderRecords(before, now, current)
  {
    ListsInRange(before, frozen);
    ExtendsKeepsOpenness(prior, now);
    LinksFreshThen(before.nodes, prior.nodes, now.nodes);
    hide LinksFresh, Inv, Extends;
    if before != prior {
      forall id | |before.nodes| <= id < |now.nodes|
        ensures IsOpenTable(now, id) || now.nodes[id].Array?
        ensures id in now.implicitTables <==> IsOpenTable(now, id) && id != current
        ensures id in now.tableArrays <==> now.nodes[id].Array?
      {
        if id < |prior.nodes| { assert IsOpenTable(prior, id); }
      }
    }
  }

  lemma {:induction false} ListsInRange(d: Doc, frozen: set<Id>)
    requires Inv(d, frozen)
    ensures forall id :: id in d.implicitTables || id in d.tableArrays ==> id < |d.nodes|
    ensures forall id :: id in d.implicitTables ==> IsOpenTable(d, id)
    ensures forall id :: id in d.tableArrays ==> id < |d.nodes| && d.nodes[id].Array?
  {
    forall id | id in d.tableArrays ensures id < |d.nodes| && d.nodes[id].Array? { assert IsTableArray(d, id, frozen); }
  }

  lemma {:induction false} NothingMade(d: Doc, frozen: set<Id>)
    requires Inv(d, frozen)
    ensures OnlyImplicit(d, d)
  {
    ListsInRange(d, frozen);
    AppendedLinks(d.nodes, d.nodes);
  }

  lemma {:induction false} AttachKeepsOpenness(d: Doc, at: Id, k: string, id: Id)
    requires at < |d.nodes| && d.nodes[at].Table?
    ensures SameOpenness(d, Attach(d, at, k, id))
  {
  }

  lemma {:induction false} ImplicitStep(before: Doc, prior: Doc, frozen: set<Id>, at: Id, k: string)
    requires OnlyImplicit(before, prior) && Inv(prior, frozen) && at < |prior.nodes| && prior.nodes[at].Table?
    ensures OnlyImplicit(before, NewImplicit(prior, at, k))
  {
    ListsInRange(prior, frozen);
    NewChildLinks(prior, at, k, Table(map[], false));
    LinksFreshThen(before.nodes, prior.nodes, NewImplicit(prior, at, k).nodes);
    hide LinksFresh;
    var grown := Append(prior, Table(map[], false));
    AttachKeepsOpenness(grown, at, k, |prior.nodes|);
    var now := NewImplicit(prior, at, k);
    assert now.nodes == Attach(grown, at, k, |prior.nodes|).nodes;
    forall id | |before.nodes| <= id < |now.nodes| ensures IsOpenTable(now, id) {
      assert id < |prior.nodes| ==> IsOpenTable(prior, id);
      assert IsOpenTable(Attach(grown, at, k, |prior.nodes|), id) == IsOpenTable(grown, id);
    }
  }

  lemma {:induction false} NewTableRecords(d: Doc, frozen: set<Id>, at: Id, k: string)
    requires Inv(d, frozen) && at < |d.nodes| && d.nodes[at].Table?
    ensures HeaderRecords(d, NewChild(d, at, k, Table(map[], false)), |d.nodes|)
  {
    ListsInRange(d, frozen);
    NewChildLinks(d, at, k, Table(map[], false));
    hide LinksFresh, Inv;
    var now := NewChild(d, at, k, Table(map[], false));
    assert now.nodes[|d.nodes|] == Table(map[], false);
  }

  lemma {:induction false} NewArrayRecords(d: Doc, frozen: set<Id>, at: Id, k: string)
    requires Inv(d, frozen) && at < |d.nodes| && d.nodes[at].Table?
    ensures HeaderRecords(d, NewTableArray(d, at, k), |d.nodes| + 1)
  {
    ListsInRange(d, frozen);
    NewArrayLinks(d, at, k);
    hide LinksFresh, Inv;
    var now, n := NewTableArray(d, at, k), |d.nodes|;
    assert now.tableArrays == d.tableArrays + [n] && now.implicitTables == d.implicitTables;
    assert now.nodes[n] == Array([n + 1]) && now.nodes[n + 1] == Table(map[], false) && |now.nodes| == n + 2;
    forall id | 0 <= id < n
      ensures id in now.implicitTables <==> id in d.implicitTables && id != n + 1
      ensures id in now.tableArrays <==> id in d.tableArrays
    {
    }
    forall id | n <= id < |now.nodes|
      ensures IsOpenTable(now, id) || now.nodes[id].Array?
      ensures id in now.implicitTables <==> IsOpenTable(now, id) && id != n + 1
      ensures id in now.tableArrays <==> now.nodes[id].Array?
    {
    }
  }

  lemma {:induction false} NewArrayLinks(d: Doc, at: Id, k: string)
    requires at < |d.nodes| && d.nodes[at].Table?
    ensures LinksFresh(d.nodes, NewTableArray(d, at, k).nodes)
  {
    var grown := Append(Append(d, Array([|d.nodes| + 1])), Table(map[], false));
    assert grown.nodes[at] == d.nodes[at];
    AttachLinks(grown.nodes, at, k, |d.nodes|);
    LinkedAfter(d.nodes, grown.nodes, NewTableArray(d, at, k).nodes, at, Key(k));
  }

  lemma {:induction false} PromotedRecords(d: Doc, frozen: set<Id>, m: Id)
    requires Inv(d, frozen) && m in d.implicitTables
    ensures HeaderRecords(d, d.(implicitTables := Without(d.implicitTables, m)), m)
  {
    ListsInRange(d, frozen);
    WithoutElement(d.implicitTables, m);
    AppendedLinks(d.nodes, d.nodes);
    hide LinksFresh;
  }

  lemma {:induction false} NewElementRecords(d: Doc, frozen: set<Id>, m: Id)
    requires Inv(d, frozen) && m < |d.nodes| && d.nodes[m].Array?
    ensures HeaderRecords(d, NewElement(d, m), |d.nodes|)
  {
    ListsInRange(d, frozen);
    var grown, now := Append(d, Table(map[], false)), NewElement(d, m);
    assert grown.nodes[m] == d.nodes[m];
    AddItemLinks(grown.nodes, m, |d.nodes|);
    LinkedAfter(d.nodes, grown.nodes, now.nodes, m, Index(|d.nodes[m].elems|));
    hide LinksFresh, Inv;
    assert now.nodes[|d.nodes|] == Table(map[], false);
  }

  // ---------- Going down a dotted key ----------

  /** What the walk keeps. */
  ghost predicate DottedKeeps(before: Doc, d: Doc, frozen: set<Id>, tbl: Id) {
    && before.dottedKeyTables <= d.dottedKeyTables && Recorded(before, d)
    && Inv(d, frozen) && Extends(before, d) && InsertFrame(before, d, tbl) && FrozenUnchanged(before, d, frozen)
  }

  /** Where it has got to, and what it has made on the way. */
  ghost predicate DottedLeads(
      before: Doc, d: Doc, tbl: Id, front: seq<string>, i: nat, at: Id, base: Id, path: seq<Step>)
    requires i <= |front|
  {
    && AllPass(d, tbl, front, i)
    && Touches(before.nodes, d.nodes, base, path + Keys(front[..i]))
    && Resolve(d.nodes, base, path + Keys(front[..i])) == Some(at)
    && Resolve(d.nodes, tbl, Keys(front[..i])) == Some(at)
  }

  /** The walk of `DottedWalk`, in the middle: before the first missing segment nothing has been created; after
      it, the walk stands on an empty table of its own. */
  ghost predicate DottedAt(
      before: Doc, d: Doc, frozen: set<Id>, tbl: Id, front: seq<string>, i: nat, at: Id, base: Id, path: seq<Step>)
    requires i <= |front|
  {
    && DottedKeeps(before, d, frozen, tbl) && DottedLeads(before, d, tbl, front, i, at, base, path)
    && tbl <= at < |d.nodes| && d.nodes[at].Table? && at !in frozen
    && var walk := DottedWalk(before, tbl, front);
       || (d == before && walk == DottedWalk(before, at, front[i..]))
       || (at >= |before.nodes| && d.nodes[at] == Table(map[], false) && walk.Reached? && walk.missing != [])
  }

  lemma {:induction false} DottedStarts(d: Doc, frozen: set<Id>, tbl: Id, front: seq<string>, base: Id, path: seq<Step>)
    requires Inv(d, frozen) && tbl < |d.nodes| && d.nodes[tbl].Table? && tbl !in frozen
    requires base < |d.nodes| && Resolve(d.nodes, base, path) == Some(tbl)
    ensures DottedAt(d, d, frozen, tbl, front, 0, tbl, base, path)
  {
    InvIsForward(d, frozen);
    TouchNothing(d.nodes, base, path);
    ExtendsReflexive(d);
    OpenTables(d, frozen);
    AppendedLinks(d.nodes, d.nodes);
    assert path + Keys([]) == path && front[..0] == [] && front[0..] == front;
    hide Touches, Inv, Extends, LinksFresh;
  }

  lemma {:induction false} DottedStandsOnTable(
      before: Doc, d: Doc, frozen: set<Id>, tbl: Id, front: seq<string>, i: nat, at: Id, base: Id, path: seq<Step>)
    requires i < |front| && DottedAt(before, d, frozen, tbl, front, i, at, base, path)
    ensures at < |d.nodes| && d.nodes[at].Table?
    ensures front[i] in d.nodes[at].children ==> d.nodes[at].children[front[i]] < |d.nodes|
  {
    if front[i] in d.nodes[at].children { ChildFacts(d, frozen, at, front[i]); }
  }

  /** The next segment is there: it is entered, or the key is refused. */
  lemma {:induction false} DottedEnters(
      before: Doc, d: Doc, frozen: set<Id>, tbl: Id, front: seq<string>, i: nat, at: Id, base: Id, path: seq<Step>)
    requires i < |front| && DottedAt(before, d, frozen, tbl, front, i, at, base, path)
    requires at < |d.nodes| && d.nodes[at].Table? && front[i] in d.nodes[at].children
    ensures var next := d.nodes[at].children[front[i]];
            && next < |d.nodes|
            && if MayEnter(d, next)
               then DottedAt(before, d, frozen, tbl, front, i + 1, next, base, path)
               else DottedWalk(before, tbl, front) == Blocked
  {
    ChildFacts(d, frozen, at, front[i]);
    OpenTables(d, frozen);
    InvIsForward(d, frozen);
    hide PointsForward, Seals, IsTableArray, NodeExtends, Unshared, Touches, AllPass, Recorded, Inv, Extends;
    assert front[i..][0] == front[i] && front[i..][1..] == front[i + 1..];
    var next := d.nodes[at].children[front[i]];
    if MayEnter(d, next) {
      ExtendsReflexive(d);
      ResolveNewChild(d, d, tbl, front[..i], at, front[i], next);
      assert front[..i + 1] == front[..i] + [front[i]];
      KeysSnoc(path, front, i);
      ResolveSnoc(d.nodes, base, path + Keys(front[..i]), Key(front[i]));
      BaseIsIn(before, d, base, path + Keys(front[..i]));
      TouchNothing(d.nodes, base, path + Keys(front[..i + 1]));
      assert Passes(d, tbl, front[..i + 1]);
      AllPassStep(d, d, tbl, front, i);
    }
  }

  lemma {:induction false} MakingKeeps(before: Doc, prior: Doc, frozen: set<Id>, tbl: Id, at: Id, k: string)
    requires DottedKeeps(before, prior, frozen, tbl)
    requires tbl <= at < |prior.nodes| && at !in frozen && prior.nodes[at].Table? && k !in prior.nodes[at].children
    ensures DottedKeeps(before, NewDotted(prior, at, k), frozen, tbl)
  {
    var d := NewDotted(prior, at, k);
    NewDottedKeeps(prior, frozen, at, k);
    RecordedDotted(prior, frozen, at, k);
    RecordedThen(before, prior, d);
    ExtendsTransitive(before, prior, d);
    hide Recorded, Extends, Inv;
  }

  lemma {:induction false} MakingLeads(
      before: Doc, prior: Doc, frozen: set<Id>, tbl: Id, front: seq<string>, i: nat, at: Id, base: Id, path: seq<Step>)
    requires i < |front| && DottedLeads(before, prior, tbl, front, i, at, base, path)
    requires Inv(prior, frozen) && Extends(before, prior) && at !in frozen
    requires at < |prior.nodes| && prior.nodes[at].Table? && front[i] !in prior.nodes[at].children
    ensures DottedLeads(before, NewDotted(prior, at, front[i]), tbl, front, i + 1, |prior.nodes|, base, path)
  {
    var d, next := NewDotted(prior, at, front[i]), |prior.nodes|;
    NewDottedKeeps(prior, frozen, at, front[i]);
    InvIsForward(d, frozen);
    assert Unshared(prior.nodes);
    hide Unshared, Touches, AllPass, Inv, Extends, Forward;
    KeysSnoc(path, front, i);
    TouchChild(before, prior, d, base, path + Keys(front[..i]), at, front[i], next);
    MadeMayBeEntered(prior, tbl, front, i, at);
    AllPassStep(prior, d, tbl, front, i);
  }

  lemma {:induction false} MadeMayBeEntered(prior: Doc, tbl: Id, front: seq<string>, i: nat, at: Id)
    requires i < |front| && Resolve(prior.nodes, tbl, Keys(front[..i])) == Some(at)
    requires at < |prior.nodes| && prior.nodes[at].Table?
    requires Extends(prior, NewDotted(prior, at, front[i]))
    ensures Resolve(NewDotted(prior, at, front[i]).nodes, tbl, Keys(front[..i + 1])) == Some(|prior.nodes|)
    ensures Passes(NewDotted(prior, at, front[i]), tbl, front[..i + 1])
  {
    hide Extends, Resolve, Keys;
    ResolveNewChild(prior, NewDotted(prior, at, front[i]), tbl, front[..i], at, front[i], |prior.nodes|);
    assert front[..i + 1] == front[..i] + [front[i]];
  }

  /** The next segment is missing: a table is made for it. */
  lemma {:induction false} DottedMakes(
      before: Doc, prior: Doc, frozen: set<Id>, tbl: Id, front: seq<string>, i: nat, at: Id, base: Id, path: seq<Step>)
    requires i < |front| && DottedAt(before, prior, frozen, tbl, front, i, at, base, path)
    requires at < |prior.nodes| && prior.nodes[at].Table? && front[i] !in prior.nodes[at].children
    ensures DottedAt(before, NewDotted(prior, at, front[i]), frozen, tbl, front, i + 1, |prior.nodes|, base, path)
  {
    assert Inv(prior, frozen) && Extends(before, prior);
    MakingKeeps(before, prior, frozen, tbl, at, front[i]);
    MakingLeads(before, prior, frozen, tbl, front, i, at, base, path);
    hide DottedKeeps, DottedLeads, Inv, Extends;
    assert front[i..][0] == front[i];
    NewIdIsOpen(prior, frozen);
  }

  /** Nothing is known of a node that is not there yet. */
  lemma {:induction false} NewIdIsOpen(d: Doc, frozen: set<Id>)
    requires Inv(d, frozen)
    ensures |d.nodes| !in frozen
  {
  }

  /** What the walk has found, once it is over. */
  lemma {:induction false} DottedFound(
      before: Doc, d: Doc, frozen: set<Id>, tbl: Id, key: seq<string>, at: Id, base: Id, path: seq<Step>)
    requires key != [] && DottedAt(before, d, frozen, tbl, key[..|key| - 1], |key| - 1, at, base, path)
    ensures Inv(d, frozen) && Extends(before, d) && InsertFrame(before, d, tbl) && FrozenUnchanged(before, d, frozen)
    ensures tbl <= at < |d.nodes| && d.nodes[at].Table? && at !in frozen && |before.nodes| <= |d.nodes|
    ensures Recorded(before, d) && PartsPass(d, tbl, key)
    ensures Resolve(d.nodes, tbl, Keys(key[..|key| - 1])) == Some(at)
    ensures Resolve(d.nodes, base, path + Keys(key[..|key| - 1])) == Some(at)
    ensures Touches(before.nodes, d.nodes, base, path + Keys(key[..|key| - 1]))
  {
    var front := key[..|key| - 1];
    assert front[..|front|] == front;
    hide Recorded, Inv, Extends, Touches, Resolve, Passes;
    forall m | 0 < m < |key| ensures Passes(d, tbl, key[..m]) {
      PartOfPart(key, |key| - 1, m);
      assert Passes(d, tbl, front[..m]);
    }
  }

  lemma {:induction false} DottedArrives(
      before: Doc, d: Doc, frozen: set<Id>, tbl: Id, front: seq<string>, at: Id, base: Id, path: seq<Step>)
    requires DottedAt(before, d, frozen, tbl, front, |front|, at, base, path)
    ensures DottedWalk(before, tbl, front) != Blocked
    ensures at < |d.nodes| && d.nodes[at].Table?
  {
    assert front[|front|..] == [];
  }

  // ---------- Tables are defined once ----------

  /** No table has been opened by two headers; and a table that a header opened, one that a dotted key made and
      one that is implicit are three different tables. */
  ghost predicate Apart(d: Doc, byHeader: seq<Id>) {
    && (forall i, j :: 0 <= i < j < |byHeader| ==> byHeader[i] != byHeader[j])
    && (forall i :: 0 <= i < |byHeader| ==>
          byHeader[i] < |d.nodes| && byHeader[i] !in d.implicitTables && byHeader[i] !in d.dottedKeyTables)
    && (forall id :: id in d.implicitTables ==> id !in d.dottedKeyTables)
  }

  lemma {:induction false} ApartOnTheWay(before: Doc, now: Doc, frozen: set<Id>, byHeader: seq<Id>)
    requires Apart(before, byHeader) && OnlyImplicit(before, now) && Inv(before, frozen)
    ensures Apart(now, byHeader)
  {
    OpenTables(before, frozen);
    hide Inv, LinksFresh;
  }

  lemma {:induction false} ApartAfterHeader(before: Doc, now: Doc, frozen: set<Id>, byHeader: seq<Id>, current: Id)
    requires Apart(before, byHeader) && HeaderRecords(before, now, current) && Inv(before, frozen)
    requires Inv(now, frozen) && current < |now.nodes|
    ensures Apart(now, byHeader + [current])
  {
    OpenTables(before, frozen);
    OpenTables(now, frozen);
    hide Inv, LinksFresh;
    forall id | id in now.implicitTables ensures id !in now.dottedKeyTables && id != current {
      assert IsOpenTable(now, id);
    }
  }

  lemma {:induction false} ApartAfterKeyValue(before: Doc, now: Doc, frozen: set<Id>, byHeader: seq<Id>)
    requires Apart(before, byHeader) && Recorded(before, now) && now.implicitTables == before.implicitTables
    requires Inv(before, frozen)
    ensures Apart(now, byHeader)
  {
    ListsInRange(before, frozen);
    hide Inv, LinksFresh;
  }

  /** Everything an insertion promises, once the value has been read and sealed. */
  lemma {:induction false} ValueIsStored(before: Doc, prior: Doc, read: Doc, f: set<Id>, g: set<Id>, tbl: Id, at: Id,
                                         key: seq<string>, id: Id, value: Syntax, base: Id, path: seq<Step>)
    requires key != [] && Inv(prior, f) && Inv(read, g) && ValueFrame(prior, read)
    requires Extends(before, prior) && InsertFrame(before, prior, tbl) && FrozenUnchanged(before, prior, f)
    requires tbl <= at < |prior.nodes| && prior.nodes[at].Table? && at !in f && at !in g
    requires key[|key| - 1] !in prior.nodes[at].children
    requires forall x :: x in g ==> x in f || x >= |prior.nodes|
    requires id == |prior.nodes| < |read.nodes| && !IsOpenTable(read, id)
    requires Denotes(read, id, value) && Stands(read.nodes, id, ValueTree(value))
    requires Resolve(prior.nodes, tbl, Keys(key[..|key| - 1])) == Some(at)
    requires Resolve(prior.nodes, base, path + Keys(key[..|key| - 1])) == Some(at)
    requires Touches(before.nodes, prior.nodes, base, path + Keys(key[..|key| - 1]))
    requires Recorded(before, prior) && Recorded(prior, read) && PartsPass(prior, tbl, key)
    ensures at < |read.nodes| && read.nodes[at].Table?
    ensures var e := Attach(read, at, key[|key| - 1], id);
            && Inv(e, g) && Extends(before, e) && InsertFrame(before, e, tbl) && FrozenUnchanged(before, e, f)
            && Puts(before.nodes, e.nodes, base, path + Keys(key), ValueTree(value)) && DenotesEntry(e, tbl, key, value)
            && PartsPass(e, tbl, key) && Recorded(before, e)
  {
    hide *;
    var front, last := key[..|key| - 1], key[|key| - 1];
    assert key == front + [last] && key[..|front| + 1] == key;
    InsertionKeeps(before, prior, read, f, g, tbl, at, last, id);
    RecordedStored(before, prior, read, at, last, id);
    InsertionDenotes(prior, read, f, g, tbl, front, at, last, id, value);
    InsertionPuts(before, prior, read, Attach(read, at, last, id), g, base, path + Keys(front), at, last, id,
      ValueTree(value));
    KeysSnoc(path, key, |front|);
    PartsPassStored(before, prior, read, Attach(read, at, last, id), f, g, tbl, at, last, id, key);
  }

  /** The same, with the value sealed as it is stored. */
  lemma {:induction false} ValueIsSealed(
      before: Doc, prior: Doc, read: Doc, f: set<Id>, frozen: set<Id>, tbl: Id, at: Id, key: seq<string>, id: Id,
      value: Syntax, base: Id, path: seq<Step>)
    requires key != [] && Inv(prior, f) && Inv(read, frozen) && ValueFrame(prior, read)
    requires FrozenGrew(f, frozen, |prior.nodes|)
    requires Extends(before, prior) && InsertFrame(before, prior, tbl) && FrozenUnchanged(before, prior, f)
    requires tbl <= at < |prior.nodes| && prior.nodes[at].Table? && at !in f && tbl !in f
    requires |before.nodes| <= |prior.nodes|
    requires key[|key| - 1] !in prior.nodes[at].children
    requires id == |prior.nodes| < |read.nodes| && !IsOpenTable(read, id)
    requires Denotes(read, id, value) && Stands(read.nodes, id, ValueTree(value))
    requires Resolve(prior.nodes, tbl, Keys(key[..|key| - 1])) == Some(at)
    requires Resolve(prior.nodes, base, path + Keys(key[..|key| - 1])) == Some(at)
    requires Touches(before.nodes, prior.nodes, base, path + Keys(key[..|key| - 1]))
    requires Recorded(before, prior) && Recorded(prior, read) && PartsPass(prior, tbl, key)
    ensures at < |read.nodes| && read.nodes[at].Table?
    ensures var e, g := Attach(read, at, key[|key| - 1], id), frozen + Range(|prior.nodes|, |read.nodes|);
            && Inv(e, g) && Extends(before, e) && InsertFrame(before, e, tbl) && FrozenUnchanged(before, e, f)
            && Puts(before.nodes, e.nodes, base, path + Keys(key), ValueTree(value)) && DenotesEntry(e, tbl, key, value)
            && PartsPass(e, tbl, key) && Recorded(before, e)
            && FrozenGrew(f, g, |before.nodes|) && tbl < |e.nodes| && tbl !in g
  {
    hide Inv, Extends, InsertFrame, FrozenUnchanged, Puts, DenotesEntry, PartsPass, Recorded, FrozenGrew, Denotes,
      Stands, Touches, ValueFrame;
    SealValue(prior, read, f, frozen);
    SealGrows(f, frozen, prior, read, |before.nodes|);
    ValueIsStored(before, prior, read, f, frozen + Range(|prior.nodes|, |read.nodes|), tbl, at, key, id, value, base,
      path);
  }

  lemma {:induction false} BaseIsIn(before: Doc, now: Doc, base: Id, path: seq<Step>)
    requires Touches(before.nodes, now.nodes, base, path)
    ensures base < |now.nodes| && base < |before.nodes|
  {
  }

  lemma {:induction false} EmptyArrayStands(nodes: seq<Node>, id: Id)
    requires Forward(nodes) && id < |nodes| && nodes[id] == Array([])
    ensures Stands(nodes, id, List([]))
  {
  }
}
