/** A table whose header comes again and again, with a value in each of its elements. */
module TomlElements {
  import opened TomlTree
  import opened TomlDocument

  /** `[[a]]` and `x = 0`, `[[a]]` and `x = 1`, and so on, `n` times. */
  function Repeated(a: string, x: string, n: nat): (statements: seq<Statement>)
    ensures |statements| == 2 * n && WellKeyed(statements)
  {
    if n == 0 then []
    else Repeated(a, x, n - 1) + [Header([a], true), KeyValue([x], ScalarSyntax(n - 1))]
  }

  /** The elements with these values, in this order. */
  function Elements(x: string, n: nat): (items: seq<Tree>)
    ensures |items| == n
  {
    seq(n, i => Branch(map[x := Leaf(i)]))
  }

  lemma {:induction false} MeaningOfFront(statements: seq<Statement>, more: seq<Statement>, n: nat)
    requires n <= |statements| && WellKeyed(statements) && WellKeyed(statements + more)
    ensures MeaningOf(statements + more, n) == MeaningOf(statements, n)
  {
    if n > 0 {
      MeaningOfFront(statements, more, n - 1);
      assert (statements + more)[n - 1] == statements[n - 1];
    }
  }

  lemma {:induction false} PutOne(t: Tree, k: string, v: Tree)
    requires t.Branch?
    ensures Put(t, [Key(k)], v) == Branch(t.children[k := v])
  {
    assert [Key(k)][1..] == [];
  }

  /** One header more makes one element more, and the value goes into it. */
  lemma {:induction false} OneElementMore(a: string, x: string, items: seq<Tree>, t: Tree, v: int)
    requires t == if items == [] then EMPTY_BRANCH else Branch(map[a := List(items)])
    ensures var after := OpenHeader(t, [a], true);
            Put(after.tree, after.path + Keys([x]), Leaf(v))
              == Branch(map[a := List(items + [Branch(map[x := Leaf(v)])])])
  {
    var spot := [Key(a)];
    assert [a][..0] == [] && Follow(t, []) == [] && Spot(t, [a]) == spot by { assert [] + [Key(a)] == spot; }
    assert spot[1..] == [];
    assert ItemsAt(t, spot) == items by {
      if items != [] { assert TreeAt(t, spot) == TreeAt(t.children[a], spot[1..]); }
    }
    var made := Put(t, spot, List(items + [EMPTY_BRANCH]));
    var longer := List(items + [EMPTY_BRANCH]);
    assert map[][a := longer] == map[a := longer] && map[a := List(items)][a := longer] == map[a := longer];
    PutOne(t, a, longer);
    assert made == Branch(map[a := longer]);
    assert Keys([x]) == [Key(x)];
    var path := spot + [Index(|items|)] + [Key(x)];
    assert path[1..] == [Index(|items|), Key(x)] && path[1..][1..] == [Key(x)] && [Key(x)][1..] == [];
    assert Put(EMPTY_BRANCH, [Key(x)], Leaf(v)) == Branch(map[x := Leaf(v)]);
    assert (items + [EMPTY_BRANCH])[|items| := Branch(map[x := Leaf(v)])] == items + [Branch(map[x := Leaf(v)])];
    assert Put(List(items + [EMPTY_BRANCH]), path[1..], Leaf(v)) == List(items + [Branch(map[x := Leaf(v)])]);
  }

  /** Such a document means an array of as many tables, in order, each with its value. */
  lemma {:induction false} RepeatedMeans(a: string, x: string, n: nat)
    ensures MeaningOf(Repeated(a, x, n), 2 * n).tree
            == if n == 0 then EMPTY_BRANCH else Branch(map[a := List(Elements(x, n))])
  {
    hide OpenHeader, Put, Keys;
    if n > 0 {
      var front, s := Repeated(a, x, n - 1), Repeated(a, x, n);
      var more := [Header([a], true), KeyValue([x], ScalarSyntax(n - 1))];
      RepeatedMeans(a, x, n - 1);
      MeaningOfFront(front, more, 2 * n - 2);
      assert s == front + more && s[2 * n - 2] == more[0] && s[2 * n - 1] == more[1];
      var t := MeaningOf(s, 2 * n - 2).tree;
      OneElementMore(a, x, Elements(x, n - 1), t, n - 1);
      assert Elements(x, n) == Elements(x, n - 1) + [Branch(map[x := Leaf(n - 1)])];
      assert MeaningOf(s, 2 * n - 1) == OpenHeader(t, [a], true);
    }
  }
}
