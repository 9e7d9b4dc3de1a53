/** Which documents are accepted, told from their statements alone: what every path was defined as, by a header,
    by a dotted key, on the way to a header, as an array of tables or by a value. */
module TomlRedefinition {
  import opened Wrappers
  import opened Sequences
  import opened TomlTree
  import opened TomlDocument

  /** How a path came to be defined. */
  datatype How = ByHeader | ByDottedKey | Implicitly | AsTableArray(count: nat) | ByValue(value: Syntax) {
    predicate IsTable() { ByHeader? || ByDottedKey? || Implicitly? }
  }

  type Known = map<seq<Step>, How>

  /** What has been defined, and the table the next key/value statements belong to. */
  datatype Defined = Defined(known: Known, current: seq<Step>)

  const NOTHING_DEFINED := Defined(map[[] := ByHeader], [])

  // ---------- The rules ----------

  datatype Way = Refused | Arrives(at: seq<Step>, missing: seq<string>)

  /** The way to a header: through every table, and through the last table of an array of tables. */
  function HeaderWay(known: Known, at: seq<Step>, segments: seq<string>): Way
    decreases |segments|
  {
    if segments == [] then Arrives(at, [])
    else
      var q := at + [Key(segments[0])];
      if q !in known then Arrives(at, segments)
      else
        match known[q]
        case ByValue(_) => Refused
        case AsTableArray(count) => if count == 0 then Refused
          else HeaderWay(known, q + [Index(count - 1)], segments[1..])
        case _ => HeaderWay(known, q, segments[1..])
  }

  /** The way along a dotted key: only through tables that no header has opened. */
  function KeyWay(known: Known, at: seq<Step>, segments: seq<string>): Way
    decreases |segments|
  {
    if segments == [] then Arrives(at, [])
    else
      var q := at + [Key(segments[0])];
      if q !in known then Arrives(at, segments)
      else if known[q].ByDottedKey? || known[q].Implicitly? then KeyWay(known, q, segments[1..])
      else Refused
  }

  predicate HoldsTables(how: How) {
    match how
    case ByValue(v) => v.InlineSyntax?
      || (v.ArraySyntax? && v.items != [] && forall i :: 0 <= i < |v.items| ==> v.items[i].InlineSyntax?)
    case AsTableArray(count) => count > 0
    case _ => true
  }

  /** Directly below the path there are only tables and arrays of tables. */
  predicate OnlyTablesBelow(known: Known, q: seq<Step>) {
    forall p :: p in known && |p| == |q| + 1 && q <= p ==> HoldsTables(known[p])
  }

  /** A table is opened by one header, and only if no dotted key made it; a table that was made on the way to
      another header may still be opened, unless a dotted key has put a value other than a table into it. */
  predicate HeaderFits(known: Known, key: seq<string>, isArray: bool)
    requires key != []
  {
    match HeaderWay(known, [], key[..|key| - 1])
    case Refused => false
    case Arrives(at, missing) =>
      var q := at + [Key(key[|key| - 1])];
      || missing != [] || q !in known
      || (if isArray then known[q].AsTableArray? else known[q].Implicitly? && OnlyTablesBelow(known, q))
  }

  /** A key is new, and so is every table on its way that no dotted key may enter. */
  predicate KeyFits(known: Known, current: seq<Step>, key: seq<string>)
    requires key != []
  {
    match KeyWay(known, current, key[..|key| - 1])
    case Refused => false
    case Arrives(at, missing) => missing != [] || at + [Key(key[|key| - 1])] !in known
  }

  predicate StatementAllowed(m: Defined, statement: Statement)
    requires statement.key != []
  {
    match statement
    case Header(key, isArray) => HeaderFits(m.known, key, isArray)
    case KeyValue(key, value) => KeyFits(m.known, m.current, key) && ValueAllowed(value, 0)
  }

  // ---------- What a statement defines ----------

  function DefineAll(known: Known, at: seq<Step>, segments: seq<string>, how: How): Known
    decreases |segments|
  {
    if segments == [] then known
    else
      var q := at + [Key(segments[0])];
      DefineAll(known[q := how], q, segments[1..], how)
  }

  function AfterHeader(m: Defined, key: seq<string>, isArray: bool): Defined
    requires key != []
  {
    match HeaderWay(m.known, [], key[..|key| - 1])
    case Refused => m
    case Arrives(at, missing) =>
      var made := DefineAll(m.known, at, missing, Implicitly);
      var q := at + Keys(missing) + [Key(key[|key| - 1])];
      if isArray then
        var n := if q in made && made[q].AsTableArray? then made[q].count else 0;
        Defined(made[q := AsTableArray(n + 1)][q + [Index(n)] := ByHeader], q + [Index(n)])
      else Defined(made[q := ByHeader], q)
  }

  function AfterKeyValue(m: Defined, key: seq<string>, value: Syntax): Defined
    requires key != []
  {
    match KeyWay(m.known, m.current, key[..|key| - 1])
    case Refused => m
    case Arrives(at, missing) =>
      var made := DefineAll(m.known, at, missing, ByDottedKey);
      m.(known := made[at + Keys(missing) + [Key(key[|key| - 1])] := ByValue(value)])
  }

  function After(m: Defined, statement: Statement): Defined
    requires statement.key != []
  {
    match statement
    case Header(key, isArray) => AfterHeader(m, key, isArray)
    case KeyValue(key, value) => AfterKeyValue(m, key, value)
  }

  function DefinedBy(statements: seq<Statement>, n: nat): Defined
    requires n <= |statements| && WellKeyed(statements)
  {
    if n == 0 then NOTHING_DEFINED else After(DefinedBy(statements, n - 1), statements[n - 1])
  }

  /** Every statement, up to the n-th, respects what the ones before it have defined. */
  predicate AllowedUpTo(statements: seq<Statement>, n: nat)
    requires n <= |statements| && WellKeyed(statements)
  {
    forall i :: 0 <= i < n ==> StatementAllowed(DefinedBy(statements, i), statements[i])
  }

  predicate DocumentAllowed(statements: seq<Statement>)
    requires WellKeyed(statements)
  {
    AllowedUpTo(statements, |statements|)
  }

  // ---------- Putting at a place, seen from every other place ----------

  predicate SameTop(a: Tree, b: Tree) {
    a.Branch? == b.Branch? && a.List? == b.List? && (a.List? ==> |a.items| == |b.items|)
  }

  /** The place is there, or it is a key of a branch that is there. */
  predicate MayPut(t: Tree, q: seq<Step>)
    decreases |q|
  {
    || q == []
    || (TreeStep(t, q[0]).Some? && MayPut(TreeStep(t, q[0]).value, q[1..]))
    || (|q| == 1 && t.Branch? && q[0].Key?)
  }

  lemma {:induction false} MayPutHere(t: Tree, q: seq<Step>)
    requires TreeAt(t, q).Some?
    ensures MayPut(t, q)
    decreases |q|
  {
    if q != [] { MayPutHere(TreeStep(t, q[0]).value, q[1..]); }
  }

  lemma {:induction false} MayPutBelow(t: Tree, p: seq<Step>, k: string)
    requires TreeAt(t, p).Some? && TreeAt(t, p).value.Branch?
    ensures MayPut(t, p + [Key(k)])
    decreases |p|
  {
    if p == [] {
      assert p + [Key(k)] == [Key(k)];
    } else {
      assert (p + [Key(k)])[1..] == p[1..] + [Key(k)];
      MayPutBelow(TreeStep(t, p[0]).value, p[1..], k);
    }
  }

  lemma {:induction false} PutStep(t: Tree, q: seq<Step>, v: Tree, s: Step)
    requires q != [] && MayPut(t, q)
    ensures SameTop(t, Put(t, q, v))
    ensures s != q[0] ==> TreeStep(Put(t, q, v), s) == TreeStep(t, s)
    ensures TreeStep(t, q[0]).Some? ==> TreeStep(Put(t, q, v), q[0]) == Some(Put(TreeStep(t, q[0]).value, q[1..], v))
    ensures TreeStep(t, q[0]).None? ==> |q| == 1 && TreeStep(Put(t, q, v), q[0]) == Some(v)
  {
    assert |q| == 1 ==> q[1..] == [];
  }

  /** At the place stands what was put; above it nothing changes its shape; elsewhere nothing changes. */
  lemma {:induction false} PutAt(t: Tree, q: seq<Step>, v: Tree, r: seq<Step>)
    requires MayPut(t, q)
    ensures q <= r ==> TreeAt(Put(t, q, v), r) == TreeAt(v, r[|q|..])
    ensures !(q <= r) && !(r <= q) ==> TreeAt(Put(t, q, v), r) == TreeAt(t, r)
    ensures r <= q && r != q ==> TreeAt(t, r).Some? && TreeAt(Put(t, q, v), r).Some?
                                 && SameTop(TreeAt(t, r).value, TreeAt(Put(t, q, v), r).value)
    decreases |q|
  {
    if q != [] && r != [] {
      PutStep(t, q, v, r[0]);
      FirstStep(q, r);
      AtStep(t, r);
      AtStep(Put(t, q, v), r);
      hide Put, MayPut, SameTop, TreeAt, TreeStep;
      if r[0] == q[0] {
        if TreeStep(t, q[0]).Some? {
          MayPutTail(t, q);
          PutAt(TreeStep(t, q[0]).value, q[1..], v, r[1..]);
        } else {
          assert q <= r && r[|q|..] == r[1..];
        }
      }
    } else if q != [] {
      PutStep(t, q, v, q[0]);
    } else {
      assert r[|q|..] == r;
    }
  }

  lemma {:induction false} AtStep(t: Tree, r: seq<Step>)
    requires r != []
    ensures TreeAt(t, r) == match TreeStep(t, r[0]) case None => None case Some(sub) => TreeAt(sub, r[1..])
  {
  }

  lemma {:induction false} MayPutTail(t: Tree, q: seq<Step>)
    requires q != [] && MayPut(t, q) && TreeStep(t, q[0]).Some?
    ensures MayPut(TreeStep(t, q[0]).value, q[1..])
  {
  }

  /** Two places, seen from one step further. */
  lemma {:induction false} FirstStep(q: seq<Step>, r: seq<Step>)
    requires q != [] && r != []
    ensures q[0] != r[0] ==> !(q <= r) && !(r <= q)
    ensures q[0] == r[0] ==>
              (q[1..] <= r[1..] <==> q <= r) && (r[1..] <= q[1..] <==> r <= q) && (q[1..] == r[1..] <==> q == r)
    ensures q[0] == r[0] && q <= r ==> r[1..][|q[1..]|..] == r[|q|..]
  {
    assert q == [q[0]] + q[1..] && r == [r[0]] + r[1..];
  }

  // ---------- The definitions against the tree ----------

  predicate Fits(how: How, t: Tree) {
    match how
    case ByValue(v) => KeysNonEmpty(v) && t == ValueTree(v)
    case AsTableArray(count) => t.List? && |t.items| == count
    case _ => t.Branch?
  }

  /** A value has nothing defined below it, and the tables of an array of tables are header tables. */
  ghost predicate Closed(known: Known) {
    && [] in known && known[[]] == ByHeader
    && (forall p, r :: p in known && r in known ==> ValueEnds(known, r, p))
    && (forall q, i: nat :: q in known && known[q].AsTableArray? && i < known[q].count ==> HoldsTable(known, q, i))
  }

  ghost predicate ValueEnds(known: Known, r: seq<Step>, p: seq<Step>)
    requires r in known
  {
    r <= p && r != p ==> !known[r].ByValue?
  }

  ghost predicate HoldsTable(known: Known, q: seq<Step>, i: nat) {
    q + [Index(i)] in known && known[q + [Index(i)]] == ByHeader
  }

  ghost predicate Covers(known: Known, t: Tree, p: seq<Step>, k: string) {
    TreeAt(t, p + [Key(k)]).Some? ==> p + [Key(k)] in known
  }

  /** What is defined is there, as what it was defined; and what is there in a table is defined. */
  ghost predicate Matches(known: Known, t: Tree) {
    && Closed(known)
    && (forall p :: p in known ==> TreeAt(t, p).Some? && Fits(known[p], TreeAt(t, p).value))
    && (forall p, k :: p in known && known[p].IsTable() ==> Covers(known, t, p, k))
  }

  lemma {:induction false} NothingMatches()
    ensures Matches(NOTHING_DEFINED.known, EMPTY_BRANCH)
  {
    var known := NOTHING_DEFINED.known;
    forall p, k | p in known && known[p].IsTable() ensures Covers(known, EMPTY_BRANCH, p, k) {
      assert p == [] && p + [Key(k)] == [Key(k)];
    }
  }

  lemma {:induction false} PrefixIsThere(t: Tree, r: seq<Step>, p: seq<Step>)
    requires r <= p && TreeAt(t, p).Some?
    ensures TreeAt(t, r).Some?
  {
    TreeAtConcat(t, r, p[|r|..]);
    assert p == r + p[|r|..];
  }

  /** What is put under a new key leaves every old definition right. */
  lemma {:induction false} OldStillFits(known: Known, t: Tree, p: seq<Step>, k: string, v: Tree, r: seq<Step>)
    requires Matches(known, t) && p in known && known[p].IsTable() && p + [Key(k)] !in known && r in known
    ensures var q := p + [Key(k)];
            !(q <= r) && TreeAt(Put(t, q, v), r).Some? && Fits(known[r], TreeAt(Put(t, q, v), r).value)
  {
    var q := p + [Key(k)];
    MayPutBelow(t, p, k);
    PutAt(t, q, v, r);
    assert Covers(known, t, p, k) && ValueEnds(known, r, p);
    if q <= r { PrefixIsThere(t, q, r); }
    assert r <= q && r != q ==> r <= p;
  }

  /** What is there in a table is still defined, when one key has been added to a table. */
  lemma {:induction false} StillCovered(
      known: Known, t: Tree, p: seq<Step>, k: string, v: Tree, r: seq<Step>, j: string)
    requires Matches(known, t) && p in known && known[p].IsTable() && p + [Key(k)] !in known
    requires r in known && known[r].IsTable() && TreeAt(Put(t, p + [Key(k)], v), r + [Key(j)]).Some?
    ensures r + [Key(j)] in known || r + [Key(j)] == p + [Key(k)]
  {
    var q, x := p + [Key(k)], r + [Key(j)];
    MayPutBelow(t, p, k);
    PutAt(t, q, v, x);
    assert Covers(known, t, p, k) && Covers(known, t, r, j);
    if q <= x && q != x {
      assert q <= r;
      PrefixIsThere(t, q, r);
    }
  }

  /** A table, a value or an array of tables without tables, under a new key. */
  lemma {:induction false} DefineMatches(known: Known, t: Tree, p: seq<Step>, k: string, how: How, v: Tree)
    requires Matches(known, t) && p in known && known[p].IsTable() && p + [Key(k)] !in known
    requires Fits(how, v) && (how.IsTable() ==> v == EMPTY_BRANCH) && (how.AsTableArray? ==> how.count == 0)
    ensures Matches(known[p + [Key(k)] := how], Put(t, p + [Key(k)], v))
  {
    var q := p + [Key(k)];
    var made, now := known[q := how], Put(t, q, v);
    MayPutBelow(t, p, k);
    PutAt(t, q, v, q);
    forall r | r in made ensures TreeAt(now, r).Some? && Fits(made[r], TreeAt(now, r).value) {
      if r != q { OldStillFits(known, t, p, k, v, r); }
    }
    forall j ensures how.IsTable() ==> TreeAt(now, q + [Key(j)]).None? {
      PutAt(t, q, v, q + [Key(j)]);
      assert (q + [Key(j)])[|q|..] == [Key(j)];
    }
    forall r, j | r in made && made[r].IsTable() ensures Covers(made, now, r, j) {
      if r != q && TreeAt(now, r + [Key(j)]).Some? { StillCovered(known, t, p, k, v, r, j); }
    }
    DefineClosed(known, t, p, k, how);
  }

  lemma {:induction false} DefineClosed(known: Known, t: Tree, p: seq<Step>, k: string, how: How)
    requires Matches(known, t) && p in known && known[p].IsTable() && p + [Key(k)] !in known
    requires how.AsTableArray? ==> how.count == 0
    ensures Closed(known[p + [Key(k)] := how])
  {
    var q := p + [Key(k)];
    var made := known[q := how];
    forall x, r | x in made && r in made ensures ValueEnds(made, r, x) {
      if r in known && x in known {
        assert ValueEnds(known, r, x);
        if r == q && r <= x { OldStillFits(known, t, p, k, EMPTY_BRANCH, x); }
      } else if r == q {
        if x != q { OldStillFits(known, t, p, k, EMPTY_BRANCH, x); }
      } else {
        assert r <= q ==> r <= p;
        assert ValueEnds(known, r, p);
      }
    }
    forall x, i: nat | x in made && made[x].AsTableArray? && i < made[x].count ensures HoldsTable(made, x, i) {
      assert HoldsTable(known, x, i);
    }
  }

  /** One more table at the end of an array of tables. */
  lemma {:induction false} ElementMatches(known: Known, t: Tree, q: seq<Step>)
    requires Matches(known, t) && q in known && known[q].AsTableArray?
    ensures TreeAt(t, q).Some? && TreeAt(t, q).value.List?
    ensures var n := known[q].count;
            Matches(known[q := AsTableArray(n + 1)][q + [Index(n)] := ByHeader],
                    Put(t, q, List(TreeAt(t, q).value.items + [EMPTY_BRANCH])))
  {
    var n, items := known[q].count, TreeAt(t, q).value.items;
    var e, now := q + [Index(n)], Put(t, q, List(items + [EMPTY_BRANCH]));
    var made := known[q := AsTableArray(n + 1)][e := ByHeader];
    ElementIsNew(known, t, q);
    ElementClosed(known, q, n);
    hide Closed, Fits, TreeAt, Put;
    forall r | r in made
      ensures TreeAt(now, r).Some? && Fits(made[r], TreeAt(now, r).value)
    {
      ElementFits(known, t, q, r);
    }
    forall r, j | r in made && made[r].IsTable() ensures Covers(made, now, r, j) {
      if TreeAt(now, r + [Key(j)]).Some? { ElementCovers(known, t, q, r, j); }
    }
  }

  lemma {:induction false} ElementFits(known: Known, t: Tree, q: seq<Step>, r: seq<Step>)
    requires Matches(known, t) && q in known && known[q].AsTableArray? && TreeAt(t, q).Some? && TreeAt(t, q).value.List?
    requires r in known || r == q + [Index(known[q].count)]
    ensures var n, now := known[q].count, Put(t, q, List(TreeAt(t, q).value.items + [EMPTY_BRANCH]));
            && TreeAt(now, r).Some?
            && Fits(known[q := AsTableArray(n + 1)][q + [Index(n)] := ByHeader][r], TreeAt(now, r).value)
  {
    AppendedAt(t, q, TreeAt(t, q).value.items, r);
    ElementIsNew(known, t, q);
    hide TreeAt, Put;
    if r in known { assert ValueEnds(known, r, q); }
  }

  lemma {:induction false} ElementCovers(known: Known, t: Tree, q: seq<Step>, r: seq<Step>, j: string)
    requires Matches(known, t) && q in known && known[q].AsTableArray? && TreeAt(t, q).Some? && TreeAt(t, q).value.List?
    requires (r in known && known[r].IsTable()) || r == q + [Index(known[q].count)]
    requires TreeAt(Put(t, q, List(TreeAt(t, q).value.items + [EMPTY_BRANCH])), r + [Key(j)]).Some?
    ensures r + [Key(j)] in known
  {
    var items, e, x := TreeAt(t, q).value.items, q + [Index(known[q].count)], r + [Key(j)];
    ElementIsNew(known, t, q);
    AppendedAt(t, q, items, x);
    AppendedBelow(t, q, items, j);
    assert e != x by { assert e[|e| - 1] != x[|x| - 1]; }
    if r in known { assert Covers(known, t, r, j); }
    if e <= x {
      assert e <= r;
      if r != e { PrefixIsThere(t, e, r); }
    }
  }

  lemma {:induction false} ElementClosed(known: Known, q: seq<Step>, n: nat)
    requires Closed(known) && q in known && known[q] == AsTableArray(n) && q + [Index(n)] !in known
    ensures Closed(known[q := AsTableArray(n + 1)][q + [Index(n)] := ByHeader])
  {
    var e := q + [Index(n)];
    var made := known[q := AsTableArray(n + 1)][e := ByHeader];
    forall x, r | x in made && r in made ensures ValueEnds(made, r, x) {
      if r != q && r != e && r <= x && r != x { ElementIsNoValue(known, q, n, x, r); }
    }
    forall p, i: nat | p in made && made[p].AsTableArray? && i < made[p].count ensures HoldsTable(made, p, i) {
      ElementsAreTables(known, q, n, p, i);
    }
    assert q != [] && e != [];
  }

  lemma {:induction false} ElementIsNoValue(known: Known, q: seq<Step>, n: nat, x: seq<Step>, r: seq<Step>)
    requires Closed(known) && q in known && known[q] == AsTableArray(n) && q + [Index(n)] !in known
    requires x in known || x == q + [Index(n)]
    requires r in known && r <= x && r != x
    ensures !known[r].ByValue?
  {
    if x !in known {
      assert r <= q && ValueEnds(known, r, q);
    } else {
      assert ValueEnds(known, r, x);
    }
  }

  lemma {:induction false} ElementsAreTables(known: Known, q: seq<Step>, n: nat, p: seq<Step>, i: nat)
    requires Closed(known) && q in known && known[q] == AsTableArray(n) && q + [Index(n)] !in known
    requires p in known && known[p].AsTableArray? && (i < known[p].count || (p == q && i == n))
    ensures p + [Index(i)] != q
    ensures p + [Index(i)] == q + [Index(n)] || (p + [Index(i)] in known && known[p + [Index(i)]] == ByHeader)
  {
    if p == q { assert |p + [Index(i)]| != |q|; }
    if i < known[p].count { assert HoldsTable(known, p, i); }
  }

  lemma {:induction false} ElementIsNew(known: Known, t: Tree, q: seq<Step>)
    requires Matches(known, t) && q in known && known[q].AsTableArray?
    ensures TreeAt(t, q + [Index(known[q].count)]).None?
    ensures q + [Index(known[q].count)] !in known
  {
    TreeAtConcat(t, q, [Index(known[q].count)]);
  }

  lemma {:induction false} AppendedAt(t: Tree, q: seq<Step>, items: seq<Tree>, r: seq<Step>)
    requires TreeAt(t, q) == Some(List(items))
    ensures var now, e := Put(t, q, List(items + [EMPTY_BRANCH])), q + [Index(|items|)];
            && (r == q ==> TreeAt(now, r) == Some(List(items + [EMPTY_BRANCH])))
            && (r == e ==> TreeAt(now, r) == Some(EMPTY_BRANCH))
            && (r != q && TreeAt(t, r).Some? ==>
                 TreeAt(now, r).Some? && SameTop(TreeAt(t, r).value, TreeAt(now, r).value))
            && (!(r <= q) && TreeAt(t, r).Some? ==> TreeAt(now, r) == TreeAt(t, r))
            && (!(e <= r) && TreeAt(t, r).None? ==> TreeAt(now, r).None?)
  {
    var v := List(items + [EMPTY_BRANCH]);
    MayPutHere(t, q);
    PutAt(t, q, v, r);
    hide Put, MayPut;
    if q <= r {
      var below := r[|q|..];
      assert r == q + below;
      TreeAtConcat(t, q, below);
      if below != [] && below[0] != Index(|items|) {
        assert TreeStep(v, below[0]) == TreeStep(List(items), below[0]);
      } else if below != [] {
        assert below == [below[0]] + below[1..] && r == q + [Index(|items|)] + below[1..];
        assert r == q + [Index(|items|)] ==> below[1..] == [];
      }
    } else if TreeAt(t, r).None? && r <= q {
      PrefixIsThere(t, r, q);
    }
  }

  lemma {:induction false} AppendedBelow(t: Tree, q: seq<Step>, items: seq<Tree>, j: string)
    requires TreeAt(t, q) == Some(List(items))
    ensures TreeAt(Put(t, q, List(items + [EMPTY_BRANCH])), q + [Index(|items|)] + [Key(j)]).None?
  {
    AppendedAt(t, q, items, q + [Index(|items|)]);
    TreeAtConcat(Put(t, q, List(items + [EMPTY_BRANCH])), q + [Index(|items|)], [Key(j)]);
  }

  /** A table made on the way becomes the table of a header. */
  lemma {:induction false} PromotionMatches(known: Known, t: Tree, q: seq<Step>)
    requires Matches(known, t) && q in known && known[q].Implicitly?
    ensures Matches(known[q := ByHeader], t)
  {
    PromotionClosed(known, q);
    hide TreeAt, Closed;
    var made := known[q := ByHeader];
    forall r, j | r in made && made[r].IsTable() ensures Covers(made, t, r, j) { assert Covers(known, t, r, j); }
  }

  lemma {:induction false} PromotionClosed(known: Known, q: seq<Step>)
    requires Closed(known) && q in known && known[q].Implicitly?
    ensures Closed(known[q := ByHeader])
  {
    var made := known[q := ByHeader];
    forall x, r | x in made && r in made ensures ValueEnds(made, r, x) { assert ValueEnds(known, r, x); }
    forall p, i: nat | p in made && made[p].AsTableArray? && i < made[p].count ensures HoldsTable(made, p, i) {
      assert HoldsTable(known, p, i);
    }
  }

  /** Empty tables one below the other, under a new key. */
  lemma {:induction false} DefineAllMatches(known: Known, t: Tree, at: seq<Step>, segments: seq<string>, how: How)
    requires Matches(known, t) && at in known && known[at].IsTable() && how.IsTable()
    requires segments != [] ==> at + [Key(segments[0])] !in known
    ensures Matches(DefineAll(known, at, segments, how), Touch(t, at + Keys(segments)))
    ensures at + Keys(segments) in DefineAll(known, at, segments, how)
    ensures DefineAll(known, at, segments, how)[at + Keys(segments)].IsTable()
    decreases |segments|
  {
    if segments == [] {
      assert at + Keys(segments) == at;
    } else {
      var q, rest := at + [Key(segments[0])], segments[1..];
      KnownIsThere(known, t, at, segments[0]);
      DefineMatches(known, t, at, segments[0], how, EMPTY_BRANCH);
      KeysDown(at, segments);
      hide Matches, Touch, TreeAt, Put, Keys, Fits;
      var one := Put(t, q, EMPTY_BRANCH);
      MayPutBelow(t, at, segments[0]);
      PutAt(t, q, EMPTY_BRANCH, q);
      HereIs(EMPTY_BRANCH, q);
      if rest != [] {
        OneBelow(one, q, rest[0]);
        KnownIsThere(known[q := how], one, q, rest[0]);
      }
      DefineAllMatches(known[q := how], one, q, rest, how);
      TouchOver(t, q, Keys(rest));
    }
  }

  lemma {:induction false} HereIs(t: Tree, q: seq<Step>)
    ensures TreeAt(t, q[|q|..]) == Some(t)
  {
  }

  lemma {:induction false} KnownIsThere(known: Known, t: Tree, p: seq<Step>, k: string)
    requires Matches(known, t) && p in known && known[p].IsTable()
    ensures TreeAt(t, p).Some? && TreeAt(t, p).value.Branch?
    ensures p + [Key(k)] in known <==> TreeAt(t, p + [Key(k)]).Some?
  {
    assert Covers(known, t, p, k);
  }

  lemma {:induction false} KeysDown(at: seq<Step>, segments: seq<string>)
    requires segments != []
    ensures at + Keys(segments) == at + [Key(segments[0])] + Keys(segments[1..])
  {
  }

  lemma {:induction false} OneBelow(t: Tree, q: seq<Step>, k: string)
    requires TreeAt(t, q) == Some(EMPTY_BRANCH)
    ensures TreeAt(t, q + [Key(k)]).None?
  {
    TreeAtConcat(t, q, [Key(k)]);
  }

  lemma {:induction false} TouchOver(t: Tree, q: seq<Step>, below: seq<Step>)
    requires TreeAt(t, q).None? && TreeAt(Put(t, q, EMPTY_BRANCH), q) == Some(EMPTY_BRANCH)
    ensures Touch(Put(t, q, EMPTY_BRANCH), q + below) == Touch(t, q + below)
  {
    TreeAtConcat(t, q, below);
    if below == [] {
      assert q + below == q;
    } else {
      TreeAtConcat(Put(t, q, EMPTY_BRANCH), q, below);
      PutOver(t, q, below, EMPTY_BRANCH);
    }
  }

  // ---------- The ways against the tree ----------

  /** Where a way has arrived: at a table, with the next segment missing. */
  predicate ArrivesWell(known: Known, way: Way) {
    way.Arrives? ==> && way.at in known && known[way.at].IsTable()
                     && (way.missing != [] ==> way.at + [Key(way.missing[0])] !in known)
  }

  /** The way through what is known goes where the way through the tree goes. */
  ghost predicate WaysAgree(known: Known, t: Tree, p: seq<Step>, segments: seq<string>) {
    && TreeAt(t, p).Some?
    && var way := HeaderWay(known, p, segments);
       && ArrivesWell(known, way)
       && (way.Arrives? ==> p + Follow(TreeAt(t, p).value, segments) == way.at + Keys(way.missing))
  }

  lemma {:induction false} HeaderWayArrives(known: Known, t: Tree, p: seq<Step>, segments: seq<string>)
    requires Matches(known, t) && p in known && known[p].IsTable()
    ensures WaysAgree(known, t, p, segments)
    decreases |segments|
  {
    KnownFits(known, t, p);
    hide Matches, TreeAt, Fits, Closed, HeaderWay, WaysAgree;
    if segments == [] {
      AgreeHere(known, t, p);
    } else {
      var q := p + [Key(segments[0])];
      TableStep(known, t, p, segments[0]);
      if q in known && known[q].IsTable() {
        HeaderWayArrives(known, t, q, segments[1..]);
        AgreeThroughTable(known, t, p, segments);
      } else if q in known && known[q].AsTableArray? && known[q].count > 0 {
        ElementStep(known, t, q);
        HeaderWayArrives(known, t, q + [Index(known[q].count - 1)], segments[1..]);
        AgreeThroughElement(known, t, p, segments);
      } else {
        AgreeToStop(known, t, p, segments);
      }
    }
  }

  lemma {:induction false} AgreeHere(known: Known, t: Tree, p: seq<Step>)
    requires p in known && known[p].IsTable() && TreeAt(t, p).Some?
    ensures WaysAgree(known, t, p, [])
  {
    hide TreeAt;
  }

  lemma {:induction false} AgreeToStop(known: Known, t: Tree, p: seq<Step>, segments: seq<string>)
    requires segments != [] && TreeAt(t, p).Some? && TreeAt(t, p).value.Branch? && p in known && known[p].IsTable()
    requires var q := p + [Key(segments[0])];
             if q in known then !known[q].IsTable() && (known[q].AsTableArray? ==> known[q].count == 0)
             else segments[0] !in TreeAt(t, p).value.children
    ensures WaysAgree(known, t, p, segments)
  {
    hide TreeAt, Keys;
  }

  lemma {:induction false} AgreeThroughTable(known: Known, t: Tree, p: seq<Step>, segments: seq<string>)
    requires segments != [] && TreeAt(t, p).Some? && TreeAt(t, p).value.Branch?
    requires var k, q := segments[0], p + [Key(segments[0])];
             && q in known && known[q].IsTable() && k in TreeAt(t, p).value.children
             && TreeAt(t, q) == Some(TreeAt(t, p).value.children[k]) && TreeAt(t, q).value.Branch?
             && WaysAgree(known, t, q, segments[1..])
    ensures WaysAgree(known, t, p, segments)
  {
    hide TreeAt, Keys;
    var k := segments[0];
    var sub := TreeAt(t, p).value;
    Regroup(p, [Key(k)], Follow(sub.children[k], segments[1..]));
  }

  lemma {:induction false} AgreeThroughElement(known: Known, t: Tree, p: seq<Step>, segments: seq<string>)
    requires segments != [] && TreeAt(t, p).Some? && TreeAt(t, p).value.Branch?
    requires var k, q := segments[0], p + [Key(segments[0])];
             && q in known && known[q].AsTableArray? && known[q].count > 0 && k in TreeAt(t, p).value.children
             && TreeAt(t, q) == Some(TreeAt(t, p).value.children[k])
             && TreeAt(t, q).value.List? && |TreeAt(t, q).value.items| == known[q].count
             && TreeAt(t, q + [Index(known[q].count - 1)]) == Some(TreeAt(t, q).value.items[known[q].count - 1])
             && WaysAgree(known, t, q + [Index(known[q].count - 1)], segments[1..])
    ensures WaysAgree(known, t, p, segments)
  {
    hide TreeAt, Keys;
    var k, q := segments[0], p + [Key(segments[0])];
    var n := known[q].count - 1;
    var below := Follow(TreeAt(t, q + [Index(n)]).value, segments[1..]);
    assert p + [Key(k), Index(n)] == q + [Index(n)];
    Regroup(p, [Key(k), Index(n)], below);
  }

  /** One key further, in a table and in its tree. */
  lemma {:induction false} TableStep(known: Known, t: Tree, p: seq<Step>, k: string)
    requires Matches(known, t) && p in known && known[p].IsTable()
    ensures TreeAt(t, p).Some? && TreeAt(t, p).value.Branch?
    ensures var q := p + [Key(k)];
            && (q in known <==> k in TreeAt(t, p).value.children)
            && (q in known ==> TreeAt(t, q) == Some(TreeAt(t, p).value.children[k]))
            && (q in known && known[q].IsTable() ==> TreeAt(t, q).value.Branch?)
  {
    KnownIsThere(known, t, p, k);
    TreeAtConcat(t, p, [Key(k)]);
    OneStep(TreeAt(t, p).value, Key(k));
    hide TreeAt;
  }

  /** The last table of an array of tables, and in its tree. */
  lemma {:induction false} ElementStep(known: Known, t: Tree, q: seq<Step>)
    requires Matches(known, t) && q in known && known[q].AsTableArray? && known[q].count > 0
    ensures TreeAt(t, q).Some? && TreeAt(t, q).value.List? && |TreeAt(t, q).value.items| == known[q].count
    ensures var e := q + [Index(known[q].count - 1)];
            e in known && known[e] == ByHeader && TreeAt(t, e) == Some(TreeAt(t, q).value.items[known[q].count - 1])
  {
    var s := Index(known[q].count - 1);
    KnownFits(known, t, q);
    LastElement(known, q);
    hide Matches, TreeAt;
    TreeAtConcat(t, q, [s]);
    OneStep(TreeAt(t, q).value, s);
  }

  lemma {:induction false} KnownFits(known: Known, t: Tree, p: seq<Step>)
    requires Matches(known, t) && p in known
    ensures TreeAt(t, p).Some? && Fits(known[p], TreeAt(t, p).value) && Closed(known)
  {
    hide TreeAt, Closed, Fits;
  }

  lemma {:induction false} LastElement(known: Known, q: seq<Step>)
    requires Closed(known) && q in known && known[q].AsTableArray? && known[q].count > 0
    ensures q + [Index(known[q].count - 1)] in known && known[q + [Index(known[q].count - 1)]] == ByHeader
  {
    assert HoldsTable(known, q, known[q].count - 1);
  }

  lemma {:induction false} OneStep(t: Tree, s: Step)
    ensures TreeAt(t, [s]) == TreeStep(t, s)
  {
    assert [s][1..] == [];
    if TreeStep(t, s).Some? { assert TreeAt(TreeStep(t, s).value, [s][1..]) == Some(TreeStep(t, s).value); }
  }

  lemma {:induction false} KeyWayArrives(known: Known, p: seq<Step>, segments: seq<string>)
    requires p in known && known[p].IsTable()
    ensures ArrivesWell(known, KeyWay(known, p, segments))
    ensures KeyWay(known, p, segments).Arrives? ==>
              p + Keys(segments) == KeyWay(known, p, segments).at + Keys(KeyWay(known, p, segments).missing)
    decreases |segments|
  {
    if segments != [] {
      var q := p + [Key(segments[0])];
      KeysDown(p, segments);
      if q in known && known[q].IsTable() { KeyWayArrives(known, q, segments[1..]); }
    }
  }

  /** What is made on the way leaves what is known as it is. */
  lemma {:induction false} DefineAllKeeps(known: Known, at: seq<Step>, segments: seq<string>, how: How, r: seq<Step>)
    requires segments != [] ==> !(at + [Key(segments[0])] <= r) || r !in known
    ensures r in known ==>
              r in DefineAll(known, at, segments, how) && DefineAll(known, at, segments, how)[r] == known[r]
    ensures r in DefineAll(known, at, segments, how) && r !in known ==>
              DefineAll(known, at, segments, how)[r] == how && |at| < |r| && r <= at + Keys(segments)
    decreases |segments|
  {
    if segments != [] {
      var q, rest := at + [Key(segments[0])], segments[1..];
      KeysDown(at, segments);
      if rest != [] && q + [Key(rest[0])] <= r { assert q <= r; }
      DefineAllKeeps(known[q := how], q, rest, how, r);
    }
  }

  /** The tables on the way are made, and the last segment is still to come. */
  lemma {:induction false} WayIsMade(known: Known, t: Tree, at: seq<Step>, missing: seq<string>, how: How, last: string)
    requires Matches(known, t) && how.IsTable() && ArrivesWell(known, Arrives(at, missing))
    ensures var made, parent := DefineAll(known, at, missing, how), at + Keys(missing);
            && Matches(made, Touch(t, parent)) && parent in made && made[parent].IsTable()
            && (missing == [] ==> made == known && parent == at && Touch(t, parent) == t)
            && (missing != [] ==> parent + [Key(last)] !in made && parent + [Key(last)] !in known)
  {
    DefineAllMatches(known, t, at, missing, how);
    var q := at + Keys(missing) + [Key(last)];
    if missing == [] {
      assert at + Keys(missing) == at;
    } else {
      KeysDown(at, missing);
      assert at + [Key(missing[0])] <= q;
      assert Covers(known, t, at, missing[0]);
      if q in known { PrefixIsThere(t, at + [Key(missing[0])], q); }
      DefineAllKeeps(known, at, missing, how, q);
    }
  }

  lemma {:induction false} TouchedBelow(t: Tree, p: seq<Step>, below: seq<Step>)
    requires TreeAt(Touch(t, p), p + below).None?
    ensures TreeAt(t, p + below).None?
  {
    if TreeAt(t, p + below).Some? { PrefixIsThere(t, p, p + below); }
  }

  lemma {:induction false} PutTwiceStep(t: Tree, q: seq<Step>, a: Tree, b: Tree)
    requires q != [] && MayPut(t, q)
    requires TreeStep(t, q[0]).Some? ==>
               var sub := TreeStep(t, q[0]).value; Put(Put(sub, q[1..], a), q[1..], b) == Put(sub, q[1..], b)
    ensures Put(Put(t, q, a), q, b) == Put(t, q, b)
  {
    match q[0]
    case Key(k) =>
      var sub := if k in t.children then t.children[k] else EMPTY_BRANCH;
      assert Put(t, q, a) == Branch(t.children[k := Put(sub, q[1..], a)]);
      assert t.children[k := Put(sub, q[1..], a)][k := Put(sub, q[1..], b)] == t.children[k := Put(sub, q[1..], b)];
    case Index(i) =>
      assert Put(t, q, a) == List(t.items[i := Put(t.items[i], q[1..], a)]);
      assert t.items[i := Put(t.items[i], q[1..], a)][i := Put(t.items[i], q[1..], b)]
        == t.items[i := Put(t.items[i], q[1..], b)];
  }

  lemma {:induction false} PutTwice(t: Tree, q: seq<Step>, a: Tree, b: Tree)
    requires MayPut(t, q)
    ensures Put(Put(t, q, a), q, b) == Put(t, q, b)
    decreases |q|
  {
    if q != [] {
      if TreeStep(t, q[0]).Some? { PutTwice(TreeStep(t, q[0]).value, q[1..], a, b); }
      PutTwiceStep(t, q, a, b);
    }
  }

  // ---------- A statement keeps the match ----------

  /** What is known matches the tree, and the next statements go to a table. */
  ghost predicate MeaningMatches(m: Defined, meaning: Meaning) {
    && Matches(m.known, meaning.tree) && m.current == meaning.path
    && m.current in m.known && m.known[m.current] == ByHeader
  }

  lemma {:induction false} HeaderMatches(m: Defined, meaning: Meaning, key: seq<string>, isArray: bool)
    requires key != [] && MeaningMatches(m, meaning) && HeaderFits(m.known, key, isArray)
    ensures MeaningMatches(AfterHeader(m, key, isArray), OpenHeader(meaning.tree, key, isArray))
  {
    var t, known, last := meaning.tree, m.known, key[|key| - 1];
    var way := HeaderWay(known, [], key[..|key| - 1]);
    KnownFits(known, t, []);
    HeaderWayArrives(known, t, [], key[..|key| - 1]);
    WayIsMade(known, t, way.at, way.missing, Implicitly, last);
    SpotIs(t, key, way.at + Keys(way.missing));
    var made, q := DefineAll(known, way.at, way.missing, Implicitly), way.at + Keys(way.missing) + [Key(last)];
    hide Matches, WaysAgree, ArrivesWell, DefineAll, HeaderWay, OnlyTablesBelow, Put, Touch, TreeAt, Closed, Fits, Spot,
      Follow, Keys;
    if q !in made {
      if isArray { NewArrayMatches(made, t, way.at + Keys(way.missing), last); }
      else { NewTableMatches(made, t, way.at + Keys(way.missing), last); }
    } else if isArray {
      NextElementMatches(known, t, q);
    } else {
      PromotionMatches(known, t, q);
      KnownFits(known, t, q);
      TouchThere(t, q);
    }
  }

  lemma {:induction false} SpotIs(t: Tree, key: seq<string>, parent: seq<Step>)
    requires key != [] && [] + Follow(t, key[..|key| - 1]) == parent
    ensures Spot(t, key) == parent + [Key(key[|key| - 1])]
  {
  }

  lemma {:induction false} TouchThere(t: Tree, q: seq<Step>)
    requires TreeAt(t, q).Some?
    ensures Touch(t, q) == t
  {
  }

  lemma {:induction false} NewTableMatches(made: Known, t: Tree, parent: seq<Step>, last: string)
    requires Matches(made, Touch(t, parent)) && parent in made && made[parent].IsTable()
    requires parent + [Key(last)] !in made
    ensures Matches(made[parent + [Key(last)] := ByHeader], Touch(t, parent + [Key(last)]))
  {
    DefineMatches(made, Touch(t, parent), parent, last, ByHeader, EMPTY_BRANCH);
    KnownIsThere(made, Touch(t, parent), parent, last);
    TouchedBelow(t, parent, [Key(last)]);
    PutThroughTouch(t, parent, [Key(last)], EMPTY_BRANCH);
    hide Matches, Put;
  }

  lemma {:induction false} NewArrayMatches(made: Known, t: Tree, parent: seq<Step>, last: string)
    requires Matches(made, Touch(t, parent)) && parent in made && made[parent].IsTable()
    requires parent + [Key(last)] !in made
    ensures var q := parent + [Key(last)];
            && ItemsAt(t, q) == []
            && Matches(made[q := AsTableArray(1)][q + [Index(0)] := ByHeader],
               Put(t, q, List(ItemsAt(t, q) + [EMPTY_BRANCH])))
  {
    var t1, q, none := Touch(t, parent), parent + [Key(last)], List([]);
    KnownIsThere(made, t1, parent, last);
    TouchedBelow(t, parent, [Key(last)]);
    DefineMatches(made, t1, parent, last, AsTableArray(0), none);
    ElementMatches(made[q := AsTableArray(0)], Put(t1, q, none), q);
    MayPutBelow(t1, parent, last);
    PutAt(t1, q, none, q);
    HereIs(none, q);
    PutTwice(t1, q, none, List([EMPTY_BRANCH]));
    PutThroughTouch(t, parent, [Key(last)], List([EMPTY_BRANCH]));
    hide Matches, Put, Touch, TreeAt;
    assert [] + [EMPTY_BRANCH] == [EMPTY_BRANCH];
    assert made[q := AsTableArray(0)][q := AsTableArray(1)][q + [Index(0)] := ByHeader]
           == made[q := AsTableArray(1)][q + [Index(0)] := ByHeader];
  }

  lemma {:induction false} NextElementMatches(known: Known, t: Tree, q: seq<Step>)
    requires Matches(known, t) && q in known && known[q].AsTableArray?
    ensures |ItemsAt(t, q)| == known[q].count
    ensures Matches(known[q := AsTableArray(known[q].count + 1)][q + [Index(known[q].count)] := ByHeader],
                    Put(t, q, List(ItemsAt(t, q) + [EMPTY_BRANCH])))
  {
    KnownFits(known, t, q);
    ElementMatches(known, t, q);
    hide Matches, Put, TreeAt;
  }

  lemma {:induction false} KeyValueMatches(m: Defined, meaning: Meaning, key: seq<string>, value: Syntax)
    requires key != [] && KeysNonEmpty(value) && MeaningMatches(m, meaning) && KeyFits(m.known, m.current, key)
    ensures MeaningMatches(AfterKeyValue(m, key, value),
            meaning.(tree := Put(meaning.tree, meaning.path + Keys(key), ValueTree(value))))
  {
    var t, known, last := meaning.tree, m.known, key[|key| - 1];
    var way := KeyWay(known, m.current, key[..|key| - 1]);
    KeyWayArrives(known, m.current, key[..|key| - 1]);
    WayIsMade(known, t, way.at, way.missing, ByDottedKey, last);
    var parent := way.at + Keys(way.missing);
    var made, q := DefineAll(known, way.at, way.missing, ByDottedKey), parent + [Key(last)];
    KeysSnoc(m.current, key, |key| - 1);
    assert key[..|key| - 1 + 1] == key;
    CurrentIsKept(m, t, key);
    hide Matches, ArrivesWell, DefineAll, KeyWay, Put, Touch, TreeAt, Closed, Keys, ValueTree;
    DefineMatches(made, Touch(t, parent), parent, last, ByValue(value), ValueTree(value));
    PutThroughTouch(t, parent, [Key(last)], ValueTree(value));
  }

  lemma {:induction false} CurrentIsKept(m: Defined, t: Tree, key: seq<string>)
    requires key != [] && Matches(m.known, t) && m.current in m.known && m.known[m.current] == ByHeader
    requires KeyFits(m.known, m.current, key)
    ensures var way := KeyWay(m.known, m.current, key[..|key| - 1]);
            && m.current in DefineAll(m.known, way.at, way.missing, ByDottedKey)
            && DefineAll(m.known, way.at, way.missing, ByDottedKey)[m.current] == ByHeader
            && m.current != way.at + Keys(way.missing) + [Key(key[|key| - 1])]
  {
    var way := KeyWay(m.known, m.current, key[..|key| - 1]);
    KeyWayArrives(m.known, m.current, key[..|key| - 1]);
    WayKeepsKnown(m.known, t, way, ByDottedKey, m.current);
    hide Matches, DefineAll, KeyWay;
  }

  /** Making the tables on the way changes nothing that was defined before, and defines only places on the way. */
  lemma {:induction false} WayKeepsKnown(known: Known, t: Tree, way: Way, how: How, r: seq<Step>)
    requires Matches(known, t) && way.Arrives? && ArrivesWell(known, way)
    ensures var made := DefineAll(known, way.at, way.missing, how);
            && (r in known ==> r in made && made[r] == known[r])
            && (r in made && r !in known ==> made[r] == how && |way.at| < |r| && r <= way.at + Keys(way.missing))
  {
    if way.missing != [] && r in known && way.at + [Key(way.missing[0])] <= r {
      KnownFits(known, t, r);
      assert Covers(known, t, way.at, way.missing[0]);
      PrefixIsThere(t, way.at + [Key(way.missing[0])], r);
    }
    hide Matches;
    DefineAllKeeps(known, way.at, way.missing, how, r);
  }

  // ---------- The lists of the parser against the definitions ----------

  /** The lists say of a node what its path was defined as. */
  ghost predicate Recalls(d: Doc, id: Id, how: How) {
    && (id in d.implicitTables <==> how.Implicitly?)
    && (id in d.dottedKeyTables <==> how.ByDottedKey?)
    && (id in d.tableArrays <==> how.AsTableArray?)
    && (IsOpenTable(d, id) <==> how.IsTable())
  }

  ghost predicate RecallsAt(d: Doc, known: Known, p: seq<Step>)
    requires p in known
  {
    Resolve(d.nodes, ROOT, p).Some? && Recalls(d, Resolve(d.nodes, ROOT, p).value, known[p])
  }

  /** The document holds what is known, and its lists tell how it came about. */
  ghost predicate Remembers(d: Doc, known: Known) {
    && Forward(d.nodes) && ROOT < |d.nodes| && d.openInlineTables == []
    && Matches(known, TreeOf(d.nodes, ROOT))
    && forall p :: p in known ==> RecallsAt(d, known, p)
  }

  /** What is known of a node at a path that is known. */
  lemma {:induction false} NodeIs(d: Doc, known: Known, p: seq<Step>, id: Id)
    requires Remembers(d, known) && p in known && Resolve(d.nodes, ROOT, p) == Some(id)
    ensures id < |d.nodes| && Recalls(d, id, known[p]) && Fits(known[p], TreeOf(d.nodes, id))
  {
    assert RecallsAt(d, known, p);
    KnownFits(known, TreeOf(d.nodes, ROOT), p);
    hide Matches, TreeAt, TreeOf;
    TreeAtIsResolve(d.nodes, ROOT, p);
  }

  lemma {:induction false} NodeStep(d: Doc, known: Known, p: seq<Step>, id: Id, k: string)
    requires Remembers(d, known) && p in known && known[p].IsTable() && Resolve(d.nodes, ROOT, p) == Some(id)
    ensures IsOpenTable(d, id)
    ensures k in d.nodes[id].children <==> p + [Key(k)] in known
    ensures k in d.nodes[id].children ==> Resolve(d.nodes, ROOT, p + [Key(k)]) == Some(d.nodes[id].children[k])
  {
    NodeIs(d, known, p, id);
    KnownIsThere(known, TreeOf(d.nodes, ROOT), p, k);
    hide Matches, TreeAt, TreeOf;
    TreeAtIsResolve(d.nodes, ROOT, p + [Key(k)]);
    ResolveSnoc(d.nodes, ROOT, p, Key(k));
  }

  lemma {:induction false} ArrayStep(d: Doc, known: Known, q: seq<Step>, id: Id, i: nat)
    requires Remembers(d, known) && q in known && known[q].AsTableArray? && Resolve(d.nodes, ROOT, q) == Some(id)
    ensures id < |d.nodes| && d.nodes[id].Array? && |d.nodes[id].elems| == known[q].count
    ensures i < known[q].count ==>
              && q + [Index(i)] in known && known[q + [Index(i)]] == ByHeader
              && Resolve(d.nodes, ROOT, q + [Index(i)]) == Some(d.nodes[id].elems[i])
              && IsOpenTable(d, d.nodes[id].elems[i])
  {
    NodeIs(d, known, q, id);
    if i < known[q].count {
      assert HoldsTable(known, q, i) by { KnownFits(known, TreeOf(d.nodes, ROOT), q); }
      ResolveSnoc(d.nodes, ROOT, q, Index(i));
      NodeIs(d, known, q + [Index(i)], d.nodes[id].elems[i]);
    }
  }

  /** A walk through the nodes and a way through what is known end the same. */
  ghost predicate EndsAlike(d: Doc, known: Known, walk: Walk, way: Way) {
    match (walk, way)
    case (Blocked, Refused) => true
    case (Reached(id, missing), Arrives(at, rest)) =>
      missing == rest && at in known && known[at].IsTable() && Resolve(d.nodes, ROOT, at) == Some(id)
    case _ => false
  }

  lemma {:induction false} HeaderWalkIsWay(d: Doc, known: Known, p: seq<Step>, id: Id, segments: seq<string>)
    requires Remembers(d, known) && p in known && known[p].IsTable() && Resolve(d.nodes, ROOT, p) == Some(id)
    ensures EndsAlike(d, known, HeaderWalk(d, id, segments), HeaderWay(known, p, segments))
    decreases |segments|
  {
    assert d.openInlineTables == [];
    hide Remembers, Resolve, Fits, TreeOf;
    if segments != [] {
      var q := p + [Key(segments[0])];
      NodeStep(d, known, p, id, segments[0]);
      if q in known {
        var next := d.nodes[id].children[segments[0]];
        NodeIs(d, known, q, next);
        if known[q].IsTable() {
          HeaderWalkIsWay(d, known, q, next, segments[1..]);
        } else if known[q].AsTableArray? {
          var n := known[q].count;
          ArrayStep(d, known, q, next, if n > 0 then n - 1 else 0);
          if n > 0 { HeaderWalkIsWay(d, known, q + [Index(n - 1)], d.nodes[next].elems[n - 1], segments[1..]); }
        }
      }
    }
  }

  lemma {:induction false} DottedWalkIsWay(d: Doc, known: Known, p: seq<Step>, id: Id, segments: seq<string>)
    requires Remembers(d, known) && p in known && known[p].IsTable() && Resolve(d.nodes, ROOT, p) == Some(id)
    ensures EndsAlike(d, known, DottedWalk(d, id, segments), KeyWay(known, p, segments))
    decreases |segments|
  {
    if segments != [] {
      var q := p + [Key(segments[0])];
      NodeStep(d, known, p, id, segments[0]);
      if q in known {
        var next := d.nodes[id].children[segments[0]];
        NodeIs(d, known, q, next);
        hide Remembers, Resolve, Fits, TreeOf;
        if known[q].ByDottedKey? || known[q].Implicitly? { DottedWalkIsWay(d, known, q, next, segments[1..]); }
      }
    }
  }

  lemma {:induction false} InsertAllowedIs(d: Doc, known: Known, current: seq<Step>, tbl: Id, key: seq<string>)
    requires Remembers(d, known) && current in known && known[current].IsTable()
    requires Resolve(d.nodes, ROOT, current) == Some(tbl)
    requires key != []
    ensures InsertAllowed(d, tbl, key) <==> KeyFits(known, current, key)
  {
    var front, last := key[..|key| - 1], key[|key| - 1];
    DottedWalkIsWay(d, known, current, tbl, front);
    hide Remembers, DottedWalk, KeyWay;
    if DottedWalk(d, tbl, front).Reached? {
      NodeStep(d, known, KeyWay(known, current, front).at, DottedWalk(d, tbl, front).at, last);
    }
  }

  predicate HoldsTablesAt(d: Doc, id: Id) {
    (id < |d.nodes| && d.nodes[id].Table?) || IsArrayOfTables(d, id)
  }

  lemma {:induction false} ValueTop(v: Syntax)
    requires KeysNonEmpty(v)
    ensures ValueTree(v).Branch? <==> v.InlineSyntax?
    ensures ValueTree(v).List? <==> v.ArraySyntax?
  {
    if v.InlineSyntax? { EntriesBranch(v.entries); }
  }

  lemma {:induction false} EntriesBranch(entries: seq<Entry>)
    requires forall i :: 0 <= i < |entries| ==> entries[i].key != []
    ensures EntriesTree(entries).Branch?
  {
    if entries != [] { EntriesBranch(entries[..|entries| - 1]); }
  }

  lemma {:induction false} HoldsTablesIs(d: Doc, known: Known, r: seq<Step>, id: Id)
    requires Remembers(d, known) && r in known && Resolve(d.nodes, ROOT, r) == Some(id)
    ensures HoldsTablesAt(d, id) <==> HoldsTables(known[r])
  {
    NodeIs(d, known, r, id);
    match known[r]
    case AsTableArray(count) =>
      ArrayStep(d, known, r, id, 0);
      forall i: nat | i < count ensures IsOpenTable(d, d.nodes[id].elems[i]) { ArrayStep(d, known, r, id, i); }
    case ByValue(v) => ValueHolds(d, id, v);
    case _ =>
  }

  lemma {:induction false} ValueHolds(d: Doc, id: Id, v: Syntax)
    requires Forward(d.nodes) && id < |d.nodes| && TreeOf(d.nodes, id) == ValueTree(v) && KeysNonEmpty(v)
    ensures HoldsTablesAt(d, id) <==> HoldsTables(ByValue(v))
  {
    ValueTop(v);
    assert NodeForward(d.nodes, id);
    if v.ArraySyntax? {
      var elems := d.nodes[id].elems;
      forall i | 0 <= i < |elems|
        ensures elems[i] < |d.nodes| && (d.nodes[elems[i]].Table? <==> v.items[i].InlineSyntax?)
      {
        assert TreeOf(d.nodes, elems[i]) == TreeOf(d.nodes, id).items[i] == ValueTree(v.items[i]);
        ValueTop(v.items[i]);
      }
    }
  }

  lemma {:induction false} MayPromoteIs(d: Doc, known: Known, q: seq<Step>, id: Id)
    requires Remembers(d, known) && q in known && Resolve(d.nodes, ROOT, q) == Some(id)
    ensures MayPromote(d, id) <==> known[q].Implicitly? && OnlyTablesBelow(known, q)
  {
    NodeIs(d, known, q, id);
    if known[q].Implicitly? {
      forall k ensures k in d.nodes[id].children <==> q + [Key(k)] in known
               ensures k in d.nodes[id].children ==>
                         (HoldsTablesAt(d, d.nodes[id].children[k]) <==> HoldsTables(known[q + [Key(k)]]))
      {
        NodeStep(d, known, q, id, k);
        if k in d.nodes[id].children { HoldsTablesIs(d, known, q + [Key(k)], d.nodes[id].children[k]); }
      }
      if OnlyTablesBelow(known, q) {
        forall k | k in d.nodes[id].children ensures HoldsTablesAt(d, d.nodes[id].children[k]) {
          assert q <= q + [Key(k)];
        }
      }
      if MayPromote(d, id) {
        forall p: seq<Step> | p in known && |p| == |q| + 1 && q <= p ensures HoldsTables(known[p]) {
          var k := BelowIsKey(d, known, q, id, p);
          assert HoldsTablesAt(d, d.nodes[id].children[k]);
        }
      }
    }
  }

  /** What is known directly below a table is known under a key of it. */
  lemma {:induction false} BelowIsKey(d: Doc, known: Known, q: seq<Step>, id: Id, p: seq<Step>) returns (k: string)
    requires Remembers(d, known) && q in known && known[q].IsTable() && Resolve(d.nodes, ROOT, q) == Some(id)
    requires p in known && |p| == |q| + 1 && q <= p
    ensures p == q + [Key(k)] && IsOpenTable(d, id) && k in d.nodes[id].children
  {
    NodeIs(d, known, q, id);
    assert RecallsAt(d, known, p);
    assert p == q + [p[|q|]];
    ResolveSnoc(d.nodes, ROOT, q, p[|q|]);
    k := p[|q|].k;
  }

  lemma {:induction false} HeaderAllowedIs(d: Doc, known: Known, key: seq<string>, isArray: bool)
    requires Remembers(d, known) && key != []
    ensures HeaderAllowed(d, key, isArray) <==> HeaderFits(known, key, isArray)
  {
    var front, last := key[..|key| - 1], key[|key| - 1];
    KnownFits(known, TreeOf(d.nodes, ROOT), []);
    HeaderWalkIsWay(d, known, [], ROOT, front);
    hide HeaderWalk, HeaderWay, OnlyTablesBelow, MayPromote, TreeOf, Matches;
    var walk, way := HeaderWalk(d, ROOT, front), HeaderWay(known, [], front);
    if walk.Reached? {
      var q := way.at + [Key(last)];
      NodeStep(d, known, way.at, walk.at, last);
      if q in known {
        var m := d.nodes[walk.at].children[last];
        NodeIs(d, known, q, m);
        MayPromoteIs(d, known, q, m);
      }
    }
  }

  // ---------- A statement keeps the lists right ----------

  /** What a header adds and changes: the tables on its way, its array, and its own table. */
  lemma {:induction false} HeaderDefines(m: Defined, meaning: Meaning, key: seq<string>, isArray: bool, p: seq<Step>)
    requires key != [] && MeaningMatches(m, meaning) && HeaderFits(m.known, key, isArray)
    requires p in AfterHeader(m, key, isArray).known
    ensures var e := AfterHeader(m, key, isArray);
            && e.current in e.known && e.known[e.current] == ByHeader
            && (e.current in m.known ==> m.known[e.current].Implicitly?)
            && (p in m.known ==> || e.known[p] == m.known[p]
                                 || (m.known[p].Implicitly? && p == e.current)
                                 || (m.known[p].AsTableArray? && e.known[p].AsTableArray? && e.known[p].count > 0))
            && (p !in m.known ==> && TreeAt(meaning.tree, p).None?
                                  && (|| e.known[p].Implicitly? || p == e.current
                                      || (e.known[p].AsTableArray? && e.known[p].count > 0)))
  {
    var known, t, last := m.known, meaning.tree, key[|key| - 1];
    var way := HeaderWay(known, [], key[..|key| - 1]);
    KnownFits(known, t, []);
    HeaderWayArrives(known, t, [], key[..|key| - 1]);
    WayKeepsKnown(known, t, way, Implicitly, p);
    WayIsMade(known, t, way.at, way.missing, Implicitly, last);
    var q := way.at + Keys(way.missing) + [Key(last)];
    if p !in known { NewOnTheWay(known, t, way, last, p); }
    if q in known && isArray { ElementIsNew(known, t, q); } else { NothingBelowNew(known, t, way, last); }
    WayKeepsKnown(known, t, way, Implicitly, q);
    hide Matches, WaysAgree, DefineAll, HeaderWay, OnlyTablesBelow, Touch, TreeAt, Closed, Fits, Keys;
  }

  /** A place on the way, or at the end of it, that was not known was not there. */
  lemma {:induction false} NewOnTheWay(known: Known, t: Tree, way: Way, last: string, p: seq<Step>)
    requires Matches(known, t) && way.Arrives? && ArrivesWell(known, way) && p !in known
    ensures |way.at| < |p| && p <= way.at + Keys(way.missing) + [Key(last)] ==> TreeAt(t, p).None?
  {
    var first := if way.missing == [] then last else way.missing[0];
    assert Covers(known, t, way.at, first);
    if |way.at| < |p| && p <= way.at + Keys(way.missing) + [Key(last)] {
      FirstOnTheWay(way, last, p);
      if TreeAt(t, p).Some? { PrefixIsThere(t, way.at + [Key(first)], p); }
    }
  }

  lemma {:induction false} FirstOnTheWay(way: Way, last: string, p: seq<Step>)
    requires way.Arrives? && |way.at| < |p| && p <= way.at + Keys(way.missing) + [Key(last)]
    ensures way.at + [Key(if way.missing == [] then last else way.missing[0])] <= p
    ensures way.missing == [] ==> way.at + [Key(last)] == p
  {
    if way.missing == [] {
      assert way.at + Keys(way.missing) == way.at;
    } else {
      KeysDown(way.at, way.missing);
    }
  }

  lemma {:induction false} NothingBelowNew(known: Known, t: Tree, way: Way, last: string)
    requires Matches(known, t) && way.Arrives? && ArrivesWell(known, way)
    requires way.at + Keys(way.missing) + [Key(last)] !in known
             || known[way.at + Keys(way.missing) + [Key(last)]].Implicitly?
    ensures TreeAt(t, way.at + Keys(way.missing) + [Key(last)] + [Index(0)]).None?
  {
    var q := way.at + Keys(way.missing) + [Key(last)];
    if q !in known {
      NewOnTheWay(known, t, way, last, q);
      if TreeAt(t, q + [Index(0)]).Some? { PrefixIsThere(t, q, q + [Index(0)]); }
    } else {
      KnownFits(known, t, q);
      TreeAtConcat(t, q, [Index(0)]);
    }
  }

  /** A key/value statement adds the tables on the way of its key, and its value. */
  lemma {:induction false} KeyValueDefines(m: Defined, meaning: Meaning, key: seq<string>, value: Syntax, p: seq<Step>)
    requires key != [] && MeaningMatches(m, meaning) && KeyFits(m.known, m.current, key)
    requires p in AfterKeyValue(m, key, value).known
    ensures var e, q := AfterKeyValue(m, key, value), m.current + Keys(key);
            && (p in m.known ==> e.known[p] == m.known[p])
            && (p !in m.known ==> && TreeAt(meaning.tree, p).None? && |m.current| < |p| && p <= q
                                  && e.known[p] == if p == q then ByValue(value) else ByDottedKey)
  {
    var known, t, front, last := m.known, meaning.tree, key[..|key| - 1], key[|key| - 1];
    var way := KeyWay(known, m.current, front);
    KeyWayArrives(known, m.current, front);
    KeyWayGrows(known, m.current, front);
    WayKeepsKnown(known, t, way, ByDottedKey, p);
    WayIsMade(known, t, way.at, way.missing, ByDottedKey, last);
    if p !in known { NewOnTheWay(known, t, way, last, p); }
    KeysSnoc(m.current, key, |key| - 1);
    assert key[..|key| - 1 + 1] == key;
    hide Matches, DefineAll, KeyWay, Touch, TreeAt, Closed, Fits, Keys;
    if p !in known && p != way.at + Keys(way.missing) + [Key(last)] {
      assert |p| <= |way.at + Keys(way.missing)|;
    }
  }

  lemma {:induction false} KeyWayGrows(known: Known, p: seq<Step>, segments: seq<string>)
    ensures KeyWay(known, p, segments).Arrives? ==> |p| <= |KeyWay(known, p, segments).at|
    decreases |segments|
  {
    if segments != [] && p + [Key(segments[0])] in known { KeyWayGrows(known, p + [Key(segments[0])], segments[1..]); }
  }

  /** A place in the document, and what its node looks like in the tree. */
  lemma {:induction false} PlaceOf(d: Doc, known: Known, p: seq<Step>) returns (id: Id)
    requires Forward(d.nodes) && ROOT < |d.nodes| && Matches(known, TreeOf(d.nodes, ROOT)) && p in known
    ensures Resolve(d.nodes, ROOT, p) == Some(id) && id < |d.nodes|
    ensures known[p].IsTable() ==> d.nodes[id].Table?
    ensures known[p].AsTableArray? ==> d.nodes[id].Array?
  {
    KnownFits(known, TreeOf(d.nodes, ROOT), p);
    TreeAtIsResolve(d.nodes, ROOT, p);
    id := Resolve(d.nodes, ROOT, p).value;
    hide Matches, TreeAt, Closed;
  }

  lemma {:induction false} NewPlace(before: Doc, now: Doc, p: seq<Step>)
    requires Forward(before.nodes) && Forward(now.nodes) && ROOT < |before.nodes| && LinksFresh(before.nodes, now.nodes)
    requires TreeAt(TreeOf(before.nodes, ROOT), p).None? && Resolve(now.nodes, ROOT, p).Some?
    ensures Resolve(now.nodes, ROOT, p).value >= |before.nodes|
  {
    TreeAtIsResolve(before.nodes, ROOT, p);
    NewPathIsFresh(before.nodes, now.nodes, ROOT, p);
  }

  /** A node that was there is remembered as before, but for the table the header has opened. */
  lemma {:induction false} OldAfterHeader(before: Doc, now: Doc, current: Id, id: Id, was: How, how: How)
    requires id < |before.nodes| && Recalls(before, id, was) && SameOpenness(before, now)
    requires HeaderRecords(before, now, current)
    requires id == current ==> how.ByHeader? && was.IsTable() && !was.ByDottedKey?
    requires id != current ==> how == was || (was.AsTableArray? && how.AsTableArray?)
    ensures Recalls(now, id, how)
  {
  }

  lemma {:induction false} NewAfterHeader(before: Doc, now: Doc, frozen: set<Id>, current: Id, id: Id, how: How)
    requires |before.nodes| <= id < |now.nodes| && Inv(before, frozen) && HeaderRecords(before, now, current)
    requires if how.AsTableArray? then now.nodes[id].Array? else now.nodes[id].Table?
    requires how.Implicitly? || how.AsTableArray? || how.ByHeader?
    requires how.ByHeader? <==> id == current
    ensures Recalls(now, id, how)
  {
    OpenTables(before, frozen);
    hide Inv;
  }

  /** Different places hold different nodes. */
  lemma {:induction false} SamePlace(nodes: seq<Node>, p: seq<Step>, q: seq<Step>)
    requires Forward(nodes) && Unshared(nodes) && Resolve(nodes, ROOT, p).Some? && Resolve(nodes, ROOT, q).Some?
    ensures Resolve(nodes, ROOT, p) == Resolve(nodes, ROOT, q) <==> p == q
  {
    if Resolve(nodes, ROOT, p) == Resolve(nodes, ROOT, q) { PathIsUnique(nodes, ROOT, p, q); }
  }

  lemma {:induction false} HeaderRemembered(
      before: Doc, now: Doc, frozen: set<Id>, m: Defined, meaning: Meaning, key: seq<string>, isArray: bool,
      current: Id)
    requires key != [] && Remembers(before, m.known) && Inv(before, frozen) && Inv(now, frozen) && Extends(before, now)
    requires MeaningMatches(m, meaning) && meaning.tree == TreeOf(before.nodes, ROOT)
    requires HeaderFits(m.known, key, isArray)
    requires HeaderMeans(before, now, key, isArray, current) && HeaderRecords(before, now, current)
    ensures Remembers(now, AfterHeader(m, key, isArray).known)
  {
    var e := AfterHeader(m, key, isArray);
    HeaderMatches(m, meaning, key, isArray);
    InvIsForward(now, frozen);
    ExtendsKeepsOpenness(before, now);
    assert Matches(e.known, TreeOf(now.nodes, ROOT)) && Resolve(now.nodes, ROOT, e.current) == Some(current);
    assert now.openInlineTables == [] && Unshared(now.nodes);
    forall p | p in e.known ensures RecallsAt(now, e.known, p) {
      HeaderRemembersPlace(before, now, frozen, m, meaning, key, isArray, current, p);
    }
  }

  lemma {:induction false} HeaderRemembersPlace(
      before: Doc, now: Doc, frozen: set<Id>, m: Defined, meaning: Meaning, key: seq<string>, isArray: bool,
      current: Id, p: seq<Step>)
    requires key != [] && Remembers(before, m.known) && Inv(before, frozen) && Extends(before, now)
    requires SameOpenness(before, now)
    requires MeaningMatches(m, meaning) && meaning.tree == TreeOf(before.nodes, ROOT)
    requires HeaderFits(m.known, key, isArray)
    requires HeaderRecords(before, now, current) && Forward(now.nodes) && Unshared(now.nodes) && ROOT < |now.nodes|
    requires var e := AfterHeader(m, key, isArray);
             && p in e.known && Matches(e.known, TreeOf(now.nodes, ROOT))
             && Resolve(now.nodes, ROOT, e.current) == Some(current)
    ensures RecallsAt(now, AfterHeader(m, key, isArray).known, p)
  {
    var e := AfterHeader(m, key, isArray);
    HeaderDefines(m, meaning, key, isArray, p);
    var id := PlaceOf(now, e.known, p);
    SamePlace(now.nodes, p, e.current);
    if p in m.known {
      var was := PlaceOf(before, m.known, p);
      PathsSurvive(before, now, ROOT, p);
      NodeIs(before, m.known, p, was);
      hide Recalls, Remembers, Matches, Resolve, AfterHeader, HeaderFits, HeaderRecords, Inv, Extends, SameOpenness,
        Fits, TreeOf, Unshared, Forward;
      OldAfterHeader(before, now, current, id, m.known[p], e.known[p]);
    } else {
      NewPlace(before, now, p);
      hide Recalls, Remembers, Matches, Resolve, AfterHeader, HeaderFits, HeaderRecords, Inv, Extends, SameOpenness,
        Fits, TreeOf, Unshared, Forward;
      NewAfterHeader(before, now, frozen, current, id, e.known[p]);
    }
  }

  lemma {:induction false} OldAfterKeyValue(before: Doc, now: Doc, id: Id, how: How)
    requires id < |before.nodes| && Recalls(before, id, how) && SameOpenness(before, now) && Recorded(before, now)
    requires now.implicitTables == before.implicitTables && now.tableArrays == before.tableArrays
    ensures Recalls(now, id, how)
  {
  }

  lemma {:induction false} NewAfterKeyValue(before: Doc, now: Doc, frozen: set<Id>, id: Id, how: How)
    requires |before.nodes| <= id < |now.nodes| && Inv(before, frozen) && Recorded(before, now)
    requires now.implicitTables == before.implicitTables && now.tableArrays == before.tableArrays
    requires how.ByDottedKey? || how.ByValue?
    requires if how.ByDottedKey? then MayEnter(now, id) else !IsOpenTable(now, id)
    ensures Recalls(now, id, how)
  {
    ListsInRange(before, frozen);
    hide Inv;
  }

  lemma {:induction false} KeyValueRemembered(
      before: Doc, now: Doc, frozen: set<Id>, g: set<Id>, m: Defined, meaning: Meaning, tbl: Id, key: seq<string>,
      value: Syntax)
    requires key != [] && KeysNonEmpty(value) && Remembers(before, m.known) && Inv(before, frozen) && Inv(now, g)
    requires Extends(before, now)
    requires MeaningMatches(m, meaning) && meaning.tree == TreeOf(before.nodes, ROOT)
    requires KeyFits(m.known, m.current, key)
    requires Resolve(before.nodes, ROOT, m.current) == Some(tbl)
    requires Puts(before.nodes, now.nodes, ROOT, m.current + Keys(key), ValueTree(value))
    requires Recorded(before, now) && PartsPass(now, tbl, key) && DenotesEntry(now, tbl, key, value)
    requires now.implicitTables == before.implicitTables && now.tableArrays == before.tableArrays
    requires now.openInlineTables == before.openInlineTables
    ensures Remembers(now, AfterKeyValue(m, key, value).known)
  {
    var e := AfterKeyValue(m, key, value);
    KeyValueMatches(m, meaning, key, value);
    InvIsForward(now, g);
    ExtendsKeepsOpenness(before, now);
    assert Matches(e.known, TreeOf(now.nodes, ROOT)) && now.openInlineTables == [];
    forall p | p in e.known ensures RecallsAt(now, e.known, p) {
      KeyValueRemembersPlace(before, now, frozen, m, meaning, tbl, key, value, p);
    }
  }

  lemma {:induction false} KeyValueRemembersPlace(
      before: Doc, now: Doc, frozen: set<Id>, m: Defined, meaning: Meaning, tbl: Id, key: seq<string>, value: Syntax,
      p: seq<Step>)
    requires key != [] && Remembers(before, m.known) && Inv(before, frozen) && Extends(before, now)
    requires SameOpenness(before, now)
    requires MeaningMatches(m, meaning) && meaning.tree == TreeOf(before.nodes, ROOT)
    requires KeyFits(m.known, m.current, key)
    requires Resolve(before.nodes, ROOT, m.current) == Some(tbl) && Forward(now.nodes) && ROOT < |now.nodes|
    requires Recorded(before, now) && PartsPass(now, tbl, key) && DenotesEntry(now, tbl, key, value)
    requires now.implicitTables == before.implicitTables && now.tableArrays == before.tableArrays
    requires p in AfterKeyValue(m, key, value).known
    requires Matches(AfterKeyValue(m, key, value).known, TreeOf(now.nodes, ROOT))
    ensures RecallsAt(now, AfterKeyValue(m, key, value).known, p)
  {
    var e := AfterKeyValue(m, key, value);
    KeyValueDefines(m, meaning, key, value, p);
    var id := PlaceOf(now, e.known, p);
    if p in m.known {
      var was := PlaceOf(before, m.known, p);
      PathsSurvive(before, now, ROOT, p);
      NodeIs(before, m.known, p, was);
      hide Recalls, Remembers, Matches, Resolve, AfterKeyValue, KeyFits, Recorded, Inv, Extends, SameOpenness, Fits,
        TreeOf, Forward, PartsPass, DenotesEntry;
      OldAfterKeyValue(before, now, id, e.known[p]);
    } else {
      NewPlace(before, now, p);
      PathsSurvive(before, now, ROOT, m.current);
      NewPlaceHolds(now, m.current, tbl, key, value, p, id);
      hide Recalls, Remembers, Matches, Resolve, AfterKeyValue, KeyFits, Recorded, Inv, Extends, SameOpenness, Fits,
        TreeOf, Forward, PartsPass, DenotesEntry;
      NewAfterKeyValue(before, now, frozen, id, e.known[p]);
    }
  }

  /** The tables of a dotted key may be entered, and its value is closed. */
  lemma {:induction false} NewPlaceHolds(
      now: Doc, current: seq<Step>, tbl: Id, key: seq<string>, value: Syntax, p: seq<Step>, id: Id)
    requires Resolve(now.nodes, ROOT, current) == Some(tbl) && Resolve(now.nodes, ROOT, p) == Some(id)
    requires |current| < |p| && p <= current + Keys(key)
    requires PartsPass(now, tbl, key) && DenotesEntry(now, tbl, key, value)
    ensures if p == current + Keys(key) then !IsOpenTable(now, id) else MayEnter(now, id)
  {
    var n := |p| - |current|;
    assert key == key[..n] + key[n..];
    KeysConcat(key[..n], key[n..]);
    assert p == current + Keys(key[..n]);
    ResolveConcat(now.nodes, ROOT, current, Keys(key[..n]));
    hide Resolve, MayEnter, Denotes;
    if n == |key| {
      assert key[..n] == key;
      ValueIsClosed(now, id, value);
    } else {
      assert Passes(now, tbl, key[..n]);
    }
  }

  // ---------- Whole documents ----------

  /** The document after some statements: it holds what they mean, and remembers how it came about. */
  ghost predicate Tracks(d: Doc, statements: seq<Statement>, n: nat)
    requires n <= |statements| && WellKeyed(statements)
  {
    var m, meaning := DefinedBy(statements, n), MeaningOf(statements, n);
    Remembers(d, m.known) && MeaningMatches(m, meaning) && meaning.tree == TreeOf(d.nodes, ROOT)
  }

  lemma {:induction false} TracksNothing(d: Doc, statements: seq<Statement>)
    requires WellKeyed(statements) && d.nodes == [Table(map[], false)]
    requires d.implicitTables == [] && d.dottedKeyTables == [] && d.openInlineTables == [] && d.tableArrays == []
    ensures Tracks(d, statements, 0)
  {
    NothingMatches();
    assert Forward(d.nodes);
    EmptyStands(d.nodes, ROOT);
    hide Matches;
    forall p | p in NOTHING_DEFINED.known ensures RecallsAt(d, NOTHING_DEFINED.known, p) {
      assert p == [] && Resolve(d.nodes, ROOT, p) == Some(ROOT);
    }
  }

  lemma {:induction false} HeaderIsAllowed(d: Doc, statements: seq<Statement>, n: nat)
    requires n < |statements| && WellKeyed(statements) && statements[n].Header? && Tracks(d, statements, n)
    ensures HeaderAllowed(d, statements[n].key, statements[n].isArray)
            <==> StatementAllowed(DefinedBy(statements, n), statements[n])
  {
    HeaderAllowedIs(d, DefinedBy(statements, n).known, statements[n].key, statements[n].isArray);
  }

  lemma {:induction false} KeyIsAllowed(d: Doc, statements: seq<Statement>, n: nat, tbl: Id)
    requires n < |statements| && WellKeyed(statements) && statements[n].KeyValue? && Tracks(d, statements, n)
    requires Resolve(d.nodes, ROOT, MeaningOf(statements, n).path) == Some(tbl)
    ensures InsertAllowed(d, tbl, statements[n].key) && ValueAllowed(statements[n].value, 0)
            <==> StatementAllowed(DefinedBy(statements, n), statements[n])
  {
    InsertAllowedIs(d, DefinedBy(statements, n).known, DefinedBy(statements, n).current, tbl, statements[n].key);
  }

  lemma {:induction false} HeaderTracks(
      before: Doc, now: Doc, frozen: set<Id>, statements: seq<Statement>, n: nat, current: Id)
    requires n < |statements| && WellKeyed(statements) && statements[n].Header? && Tracks(before, statements, n)
    requires StatementAllowed(DefinedBy(statements, n), statements[n])
    requires Inv(before, frozen) && Inv(now, frozen) && Extends(before, now) && HeaderRecords(before, now, current)
    requires HeaderMeans(before, now, statements[n].key, statements[n].isArray, current)
    ensures Tracks(now, statements, n + 1)
  {
    var m, meaning := DefinedBy(statements, n), MeaningOf(statements, n);
    HeaderRemembered(before, now, frozen, m, meaning, statements[n].key, statements[n].isArray, current);
    HeaderMatches(m, meaning, statements[n].key, statements[n].isArray);
    hide Remembers, MeaningMatches, OpenHeader, AfterHeader, HeaderFits, Inv, Extends, HeaderRecords;
  }

  lemma {:induction false} KeyValueTracks(
      before: Doc, now: Doc, frozen: set<Id>, g: set<Id>, statements: seq<Statement>, n: nat, tbl: Id)
    requires n < |statements| && WellKeyed(statements) && statements[n].KeyValue? && Tracks(before, statements, n)
    requires StatementAllowed(DefinedBy(statements, n), statements[n])
    requires Inv(before, frozen) && Inv(now, g) && Extends(before, now)
    requires Resolve(before.nodes, ROOT, MeaningOf(statements, n).path) == Some(tbl)
    requires Puts(before.nodes, now.nodes, ROOT, MeaningOf(statements, n).path + Keys(statements[n].key),
             ValueTree(statements[n].value))
    requires Recorded(before, now) && PartsPass(now, tbl, statements[n].key)
    requires DenotesEntry(now, tbl, statements[n].key, statements[n].value)
    requires now.implicitTables == before.implicitTables && now.tableArrays == before.tableArrays
    requires now.openInlineTables == before.openInlineTables
    ensures Tracks(now, statements, n + 1)
  {
    var m, meaning := DefinedBy(statements, n), MeaningOf(statements, n);
    KeyValueRemembered(before, now, frozen, g, m, meaning, tbl, statements[n].key, statements[n].value);
    KeyValueMatches(m, meaning, statements[n].key, statements[n].value);
    hide Remembers, MeaningMatches, AfterKeyValue, KeyFits, Inv, Extends, Recorded, PartsPass, DenotesEntry;
  }

  lemma {:induction false} RunStarts(d: Doc, frozen: set<Id>, statements: seq<Statement>)
    requires Inv(d, frozen) && WellKeyed(statements) && d == Doc([Table(map[], false)], [], [], [], [])
    ensures RunsTo(d, ROOT, statements, 0, [], []) && Tracks(d, statements, 0)
  {
    InvIsForward(d, frozen);
    EmptyStands(d.nodes, ROOT);
    TracksNothing(d, statements);
    hide Tracks, Inv;
  }

  lemma {:induction false} NoneIsAllowed(statements: seq<Statement>)
    requires WellKeyed(statements)
    ensures AllowedUpTo(statements, 0)
  {
  }

  lemma {:induction false} AllowedOneMore(statements: seq<Statement>, n: nat)
    requires n < |statements| && WellKeyed(statements) && AllowedUpTo(statements, n)
    ensures AllowedUpTo(statements, n + 1) <==> StatementAllowed(DefinedBy(statements, n), statements[n])
    ensures !StatementAllowed(DefinedBy(statements, n), statements[n]) ==> !DocumentAllowed(statements)
  {
    hide StatementAllowed, DefinedBy;
  }

  // ---------- What holds in every accepted document ----------

  lemma {:induction false} AllMatch(statements: seq<Statement>, n: nat)
    requires n <= |statements| && WellKeyed(statements) && AllowedUpTo(statements, n)
    ensures MeaningMatches(DefinedBy(statements, n), MeaningOf(statements, n))
  {
    if n == 0 {
      NothingMatches();
    } else {
      AllMatch(statements, n - 1);
      var m, meaning := DefinedBy(statements, n - 1), MeaningOf(statements, n - 1);
      assert StatementAllowed(m, statements[n - 1]);
      hide MeaningMatches, AllowedUpTo, Put;
      match statements[n - 1]
      case Header(key, isArray) => HeaderMatches(m, meaning, key, isArray);
      case KeyValue(key, value) => KeyValueMatches(m, meaning, key, value);
    }
  }

  /** A definition stays what it is: only a table made on the way to a header may become the table of a header,
      and only an array of tables grows. */
  predicate Stays(was: How, how: How) {
    match was
    case Implicitly => how.Implicitly? || how.ByHeader?
    case AsTableArray(_) => how.AsTableArray?
    case _ => how == was
  }

  lemma {:induction false} StaysOneMore(statements: seq<Statement>, n: nat, p: seq<Step>)
    requires n < |statements| && WellKeyed(statements) && AllowedUpTo(statements, n + 1)
    requires p in DefinedBy(statements, n).known
    ensures p in DefinedBy(statements, n + 1).known
    ensures Stays(DefinedBy(statements, n).known[p], DefinedBy(statements, n + 1).known[p])
  {
    OneMore(statements, n);
    hide MeaningMatches, AllowedUpTo, DefinedBy;
    var m, meaning := DefinedBy(statements, n), MeaningOf(statements, n);
    match statements[n]
    case Header(key, isArray) =>
      HeaderStays(m, meaning, key, isArray, p);
      HeaderDefines(m, meaning, key, isArray, p);
    case KeyValue(key, value) =>
      KeyValueStays(m, meaning, key, value, p);
      KeyValueDefines(m, meaning, key, value, p);
  }

  lemma {:induction false} HeaderStays(m: Defined, meaning: Meaning, key: seq<string>, isArray: bool, p: seq<Step>)
    requires key != [] && MeaningMatches(m, meaning) && HeaderFits(m.known, key, isArray) && p in m.known
    ensures p in AfterHeader(m, key, isArray).known
  {
    var way := HeaderWay(m.known, [], key[..|key| - 1]);
    KnownFits(m.known, meaning.tree, []);
    HeaderWayArrives(m.known, meaning.tree, [], key[..|key| - 1]);
    WayKeepsKnown(m.known, meaning.tree, way, Implicitly, p);
    hide Matches, DefineAll, HeaderWay, OnlyTablesBelow;
  }

  lemma {:induction false} KeyValueStays(m: Defined, meaning: Meaning, key: seq<string>, value: Syntax, p: seq<Step>)
    requires key != [] && MeaningMatches(m, meaning) && KeyFits(m.known, m.current, key) && p in m.known
    ensures p in AfterKeyValue(m, key, value).known
  {
    var way := KeyWay(m.known, m.current, key[..|key| - 1]);
    KeyWayArrives(m.known, m.current, key[..|key| - 1]);
    WayKeepsKnown(m.known, meaning.tree, way, ByDottedKey, p);
    hide Matches, DefineAll, KeyWay;
  }

  lemma {:induction false} AllowedEarlier(statements: seq<Statement>, i: nat, n: nat)
    requires i <= n <= |statements| && WellKeyed(statements) && AllowedUpTo(statements, n)
    ensures AllowedUpTo(statements, i)
  {
    hide DefinedBy, StatementAllowed;
  }

  lemma {:induction false} StaysDefined(statements: seq<Statement>, i: nat, n: nat, p: seq<Step>)
    requires i <= n <= |statements| && WellKeyed(statements) && AllowedUpTo(statements, n)
    requires p in DefinedBy(statements, i).known
    ensures p in DefinedBy(statements, n).known
    ensures Stays(DefinedBy(statements, i).known[p], DefinedBy(statements, n).known[p])
    decreases n
  {
    hide DefinedBy, AllowedUpTo;
    if i < n {
      AllowedEarlier(statements, n - 1, n);
      StaysDefined(statements, i, n - 1, p);
      StaysOneMore(statements, n - 1, p);
    }
  }

  /** The table a header opens was not there, or it was made on the way to an earlier header. */
  lemma {:induction false} HeaderOpens(statements: seq<Statement>, n: nat)
    requires n < |statements| && WellKeyed(statements) && AllowedUpTo(statements, n + 1) && statements[n].Header?
    ensures var p := DefinedBy(statements, n + 1).current;
            && p in DefinedBy(statements, n + 1).known && DefinedBy(statements, n + 1).known[p] == ByHeader
            && (p in DefinedBy(statements, n).known ==> DefinedBy(statements, n).known[p].Implicitly?)
  {
    OneMore(statements, n);
    AllMatch(statements, n + 1);
    hide Matches, DefinedBy, AllowedUpTo;
    HeaderDefines(DefinedBy(statements, n), MeaningOf(statements, n), statements[n].key, statements[n].isArray,
                  DefinedBy(statements, n + 1).current);
  }

  /** No two headers of an accepted document open the same table. */
  lemma {:induction false} NoTableTwice(statements: seq<Statement>, i: nat, j: nat)
    requires i < j < |statements| && WellKeyed(statements) && AllowedUpTo(statements, j + 1)
    requires statements[i].Header? && statements[j].Header?
    ensures DefinedBy(statements, i + 1).current != DefinedBy(statements, j + 1).current
  {
    hide DefinedBy, AllowedUpTo;
    AllowedEarlier(statements, i + 1, j + 1);
    AllowedEarlier(statements, j, j + 1);
    HeaderOpens(statements, i);
    HeaderOpens(statements, j);
    StaysDefined(statements, i + 1, j, DefinedBy(statements, i + 1).current);
  }

  /** No header opens a table that a dotted key made, or a place that holds a value. */
  lemma {:induction false} NoDottedTableOpened(statements: seq<Statement>, i: nat, j: nat, p: seq<Step>)
    requires i <= j < |statements| && WellKeyed(statements) && AllowedUpTo(statements, j + 1) && statements[j].Header?
    requires p in DefinedBy(statements, i).known
    requires DefinedBy(statements, i).known[p].ByDottedKey? || DefinedBy(statements, i).known[p].ByValue?
    ensures DefinedBy(statements, j + 1).current != p
  {
    hide DefinedBy, AllowedUpTo;
    AllowedEarlier(statements, j, j + 1);
    HeaderOpens(statements, j);
    StaysDefined(statements, i, j, p);
  }

  // ---------- A header after dotted keys ----------

  /** The place a key/value statement writes to. */
  function WritesTo(statements: seq<Statement>, i: nat): seq<Step>
    requires i < |statements| && WellKeyed(statements)
  {
    DefinedBy(statements, i).current + Keys(statements[i].key)
  }

  /** A place with a value has been written to by a statement with that value, and arrays of tables hold tables. */
  ghost predicate Written(statements: seq<Statement>, n: nat, p: seq<Step>)
    requires n <= |statements| && WellKeyed(statements) && p in DefinedBy(statements, n).known
  {
    match DefinedBy(statements, n).known[p]
    case ByValue(v) =>
      exists i :: 0 <= i < n && statements[i].KeyValue? && WritesTo(statements, i) == p && statements[i].value == v
    case AsTableArray(count) => count > 0
    case _ => true
  }

  lemma {:induction false} KnownIsWritten(statements: seq<Statement>, n: nat, p: seq<Step>)
    requires n <= |statements| && WellKeyed(statements) && AllowedUpTo(statements, n)
    requires p in DefinedBy(statements, n).known
    ensures Written(statements, n, p)
  {
    hide DefinedBy, MeaningMatches, AllowedUpTo, AfterHeader, AfterKeyValue, WritesTo, HeaderFits, KeyFits, TreeAt,
      Keys;
    if n == 0 {
      DefinedByNone(statements);
    } else {
      OneMore(statements, n - 1);
      var m, meaning, s := DefinedBy(statements, n - 1), MeaningOf(statements, n - 1), statements[n - 1];
      if p in m.known { KnownIsWritten(statements, n - 1, p); }
      match s
      case Header(key, isArray) => HeaderDefines(m, meaning, key, isArray, p);
      case KeyValue(key, value) =>
        KeyValueDefines(m, meaning, key, value, p);
        WritesHere(statements, n - 1);
    }
  }

  lemma {:induction false} DefinedByNone(statements: seq<Statement>)
    requires WellKeyed(statements)
    ensures DefinedBy(statements, 0) == NOTHING_DEFINED
  {
  }

  lemma {:induction false} WritesHere(statements: seq<Statement>, i: nat)
    requires i < |statements| && WellKeyed(statements)
    ensures WritesTo(statements, i) == DefinedBy(statements, i).current + Keys(statements[i].key)
  {
  }

  /** The next statement, in a document that is accepted so far. */
  lemma {:induction false} OneMore(statements: seq<Statement>, n: nat)
    requires n < |statements| && WellKeyed(statements) && AllowedUpTo(statements, n + 1)
    ensures AllowedUpTo(statements, n) && StatementAllowed(DefinedBy(statements, n), statements[n])
    ensures MeaningMatches(DefinedBy(statements, n), MeaningOf(statements, n))
    ensures DefinedBy(statements, n + 1) == After(DefinedBy(statements, n), statements[n])
  {
    AllowedEarlier(statements, n, n + 1);
    AllMatch(statements, n);
    hide MeaningMatches, StatementAllowed, After;
  }

  /** What has been written stays written. */
  lemma {:induction false} WrittenIsKnown(statements: seq<Statement>, i: nat, n: nat)
    requires i < n <= |statements| && WellKeyed(statements) && AllowedUpTo(statements, n) && statements[i].KeyValue?
    ensures WritesTo(statements, i) in DefinedBy(statements, n).known
    ensures DefinedBy(statements, n).known[WritesTo(statements, i)] == ByValue(statements[i].value)
  {
    hide DefinedBy, MeaningMatches, AllowedUpTo, AfterKeyValue, WritesTo, KeyFits, Keys;
    AllowedEarlier(statements, i + 1, n);
    OneMore(statements, i);
    WritesHere(statements, i);
    ValueIsDefined(DefinedBy(statements, i), MeaningOf(statements, i), statements[i].key, statements[i].value);
    StaysDefined(statements, i + 1, n, WritesTo(statements, i));
  }

  lemma {:induction false} ValueIsDefined(m: Defined, meaning: Meaning, key: seq<string>, value: Syntax)
    requires key != [] && MeaningMatches(m, meaning) && KeyFits(m.known, m.current, key)
    ensures m.current + Keys(key) in AfterKeyValue(m, key, value).known
    ensures AfterKeyValue(m, key, value).known[m.current + Keys(key)] == ByValue(value)
  {
    KeyWayArrives(m.known, m.current, key[..|key| - 1]);
    KeysSnoc(m.current, key, |key| - 1);
    assert key[..|key| - 1 + 1] == key;
    hide KeyWay, Matches, DefineAll, Keys;
  }

  /** A header names a table that was made on the way to another header, and dotted keys may have gone through it
      since: it is accepted exactly when every value they have put directly into it is a table or holds tables only. */
  lemma {:induction false} OpensAfterDottedKeys(statements: seq<Statement>, n: nat, key: seq<string>, at: seq<Step>)
    requires n < |statements| && WellKeyed(statements) && AllowedUpTo(statements, n)
    requires key != [] && statements[n] == Header(key, false)
    requires HeaderWay(DefinedBy(statements, n).known, [], key[..|key| - 1]) == Arrives(at, [])
    requires var q := at + [Key(key[|key| - 1])];
             q in DefinedBy(statements, n).known && DefinedBy(statements, n).known[q].Implicitly?
    ensures StatementAllowed(DefinedBy(statements, n), statements[n])
            <==> forall i, k ::
                   && 0 <= i < n && statements[i].KeyValue?
                   && WritesTo(statements, i) == at + [Key(key[|key| - 1])] + [Key(k)]
                   ==> HoldsTables(ByValue(statements[i].value))
  {
    var known, q := DefinedBy(statements, n).known, at + [Key(key[|key| - 1])];
    hide DefinedBy, AllowedUpTo, WritesTo, HeaderWay, Matches, OnlyTablesBelow;
    if OnlyTablesBelow(known, q) {
      forall i, k | 0 <= i < n && statements[i].KeyValue? && WritesTo(statements, i) == q + [Key(k)]
        ensures HoldsTables(ByValue(statements[i].value))
      {
        WrittenIsKnown(statements, i, n);
        BelowHoldsTables(known, q, WritesTo(statements, i));
      }
    } else {
      var i, k := NumberBelow(statements, n, q);
    }
  }

  lemma {:induction false} BelowHoldsTables(known: Known, q: seq<Step>, p: seq<Step>)
    requires OnlyTablesBelow(known, q) && p in known && |p| == |q| + 1 && q <= p
    ensures HoldsTables(known[p])
  {
  }

  /** What keeps a header from opening a table has been written by a statement. */
  lemma {:induction false} NumberBelow(statements: seq<Statement>, n: nat, q: seq<Step>) returns (i: nat, k: string)
    requires n <= |statements| && WellKeyed(statements) && AllowedUpTo(statements, n)
    requires q in DefinedBy(statements, n).known && DefinedBy(statements, n).known[q].Implicitly?
    requires !OnlyTablesBelow(DefinedBy(statements, n).known, q)
    ensures i < n && statements[i].KeyValue? && WritesTo(statements, i) == q + [Key(k)]
    ensures !HoldsTables(ByValue(statements[i].value))
  {
    hide DefinedBy, AllowedUpTo, WritesTo, Written, OnlyTablesBelow, HoldsTables, MeaningMatches, Matches;
    AllMatch(statements, n);
    MatchesOf(DefinedBy(statements, n), MeaningOf(statements, n));
    var p := NotATable(DefinedBy(statements, n).known, q);
    KnownIsWritten(statements, n, p);
    k := KeyBelow(DefinedBy(statements, n).known, MeaningOf(statements, n).tree, q, p);
    i := WriterOf(statements, n, p);
  }

  lemma {:induction false} MatchesOf(m: Defined, meaning: Meaning)
    requires MeaningMatches(m, meaning)
    ensures Matches(m.known, meaning.tree)
  {
  }

  lemma {:induction false} NotATable(known: Known, q: seq<Step>) returns (p: seq<Step>)
    requires !OnlyTablesBelow(known, q)
    ensures p in known && |p| == |q| + 1 && q <= p && !HoldsTables(known[p])
  {
    p :| p in known && |p| == |q| + 1 && q <= p && !HoldsTables(known[p]);
  }

  lemma {:induction false} WriterOf(statements: seq<Statement>, n: nat, p: seq<Step>) returns (i: nat)
    requires n <= |statements| && WellKeyed(statements) && p in DefinedBy(statements, n).known
    requires Written(statements, n, p) && !HoldsTables(DefinedBy(statements, n).known[p])
    ensures i < n && statements[i].KeyValue? && WritesTo(statements, i) == p
    ensures !HoldsTables(ByValue(statements[i].value))
  {
    hide DefinedBy, WritesTo;
    var v := DefinedBy(statements, n).known[p].value;
    i :| 0 <= i < n && statements[i].KeyValue? && WritesTo(statements, i) == p && statements[i].value == v;
  }

  lemma {:induction false} KeyBelow(known: Known, t: Tree, q: seq<Step>, p: seq<Step>) returns (k: string)
    requires Matches(known, t) && q in known && known[q].IsTable() && p in known && |p| == |q| + 1 && q <= p
    ensures p == q + [Key(k)]
  {
    hide Matches;
    assert p == q + [p[|q|]];
    ChildIsKey(known, t, q, p[|q|]);
    k := p[|q|].k;
  }

  lemma {:induction false} ChildIsKey(known: Known, t: Tree, q: seq<Step>, step: Step)
    requires Matches(known, t) && q in known && known[q].IsTable() && q + [step] in known
    ensures step.Key?
  {
    KnownFits(known, t, q);
    KnownFits(known, t, q + [step]);
    TreeAtConcat(t, q, [step]);
    OneStep(TreeAt(t, q).value, step);
  }

  const A: seq<Step> := [Key("a")]
  const AB: seq<Step> := [Key("a"), Key("b")]
  const ABC: seq<Step> := [Key("a"), Key("b"), Key("c")]
  const ABX: seq<Step> := [Key("a"), Key("b"), Key("x")]
  const ABXY: seq<Step> := [Key("a"), Key("b"), Key("x"), Key("y")]

  const OPENED_A: Known := map[[] := ByHeader, A := ByHeader, AB := Implicitly, ABC := ByHeader]

  /** `[a.b.c]`, `[a]`, a dotted key, `[a.b]`. */
  function DottedThenHeader(key: seq<string>): seq<Statement> {
    [Header(["a", "b", "c"], false), Header(["a"], false), KeyValue(key, ScalarSyntax(1)), Header(["a", "b"], false)]
  }

  lemma {:induction false} FirstHeader()
    ensures HeaderFits(NOTHING_DEFINED.known, ["a", "b", "c"], false)
    ensures AfterHeader(NOTHING_DEFINED, ["a", "b", "c"], false) == Defined(OPENED_A[A := Implicitly], ABC)
  {
    var k0 := NOTHING_DEFINED.known;
    assert ["a", "b", "c"][..2] == ["a", "b"];
    TwoMade(k0);
    assert HeaderWay(k0, [], ["a", "b"]) == Arrives([], ["a", "b"]);
    hide DefineAll, HeaderWay, Keys;
    assert AB + [Key("c")] == ABC;
    assert k0[A := Implicitly][AB := Implicitly][ABC := ByHeader] == OPENED_A[A := Implicitly];
  }

  lemma {:induction false} TwoMade(known: Known)
    ensures DefineAll(known, [], ["a", "b"], Implicitly) == known[A := Implicitly][AB := Implicitly]
    ensures [] + Keys(["a", "b"]) == AB
  {
    assert ["a", "b"][1..] == ["b"] && ["b"][1..] == [] && [] + [Key("a")] == A && A + [Key("b")] == AB;
    KeysDown([], ["a", "b"]);
    KeysDown(A, ["b"]);
    assert DefineAll(known[A := Implicitly], A, ["b"], Implicitly) == known[A := Implicitly][AB := Implicitly];
  }

  lemma {:induction false} SecondHeader()
    ensures HeaderFits(OPENED_A[A := Implicitly], ["a"], false)
    ensures AfterHeader(Defined(OPENED_A[A := Implicitly], ABC), ["a"], false) == Defined(OPENED_A, A)
  {
    assert ["a"][..0] == [] && [] + [Key("a")] == A && [] + Keys([]) + [Key("a")] == A;
    assert OPENED_A[A := Implicitly][A := ByHeader] == OPENED_A;
  }

  lemma {:induction false} LongKey()
    ensures KeyFits(OPENED_A, A, ["b", "x", "y"])
    ensures AfterKeyValue(Defined(OPENED_A, A), ["b", "x", "y"], ScalarSyntax(1))
            == Defined(OPENED_A[ABX := ByDottedKey][ABXY := ByValue(ScalarSyntax(1))], A)
  {
    assert ["b", "x", "y"][..2] == ["b", "x"] && ["b", "x"][1..] == ["x"] && ["x"][1..] == [];
    assert A + [Key("b")] == AB && AB + [Key("x")] == ABX && ABX + [Key("y")] == ABXY;
    assert KeyWay(OPENED_A, AB, ["x"]) == Arrives(AB, ["x"]);
    assert KeyWay(OPENED_A, A, ["b", "x"]) == Arrives(AB, ["x"]);
    assert DefineAll(OPENED_A, AB, ["x"], ByDottedKey) == OPENED_A[ABX := ByDottedKey];
    KeysDown(AB, ["x"]);
    assert AB + Keys(["x"]) == ABX;
  }

  lemma {:induction false} ShortKey()
    ensures KeyFits(OPENED_A, A, ["b", "x"])
    ensures AfterKeyValue(Defined(OPENED_A, A), ["b", "x"], ScalarSyntax(1))
            == Defined(OPENED_A[ABX := ByValue(ScalarSyntax(1))], A)
  {
    assert ["b", "x"][..1] == ["b"] && ["b"][1..] == [];
    assert A + [Key("b")] == AB && AB + [Key("x")] == ABX && AB + Keys([]) == AB;
    assert KeyWay(OPENED_A, AB, []) == Arrives(AB, []);
    assert KeyWay(OPENED_A, A, ["b"]) == Arrives(AB, []);
  }

  lemma {:induction false} LastHeader(known: Known)
    requires A in known && known[A] == ByHeader && AB in known && known[AB] == Implicitly
    ensures HeaderFits(known, ["a", "b"], false) <==> OnlyTablesBelow(known, AB)
  {
    assert ["a", "b"][..1] == ["a"] && ["a"][1..] == [] && [] + [Key("a")] == A && A + [Key("b")] == AB;
    assert HeaderWay(known, A, []) == Arrives(A, []);
    assert HeaderWay(known, [], ["a"]) == Arrives(A, []);
  }

  lemma {:induction false} FourAreAllowed(key: seq<string>)
    requires key != [] && KeyFits(OPENED_A, A, key)
    ensures WellKeyed(DottedThenHeader(key))
    ensures DocumentAllowed(DottedThenHeader(key))
            <==> HeaderFits(AfterKeyValue(Defined(OPENED_A, A), key, ScalarSyntax(1)).known, ["a", "b"], false)
  {
    var s := DottedThenHeader(key);
    FirstHeader();
    SecondHeader();
    hide HeaderFits, AfterHeader, AfterKeyValue, KeyFits;
    assert DefinedBy(s, 0) == NOTHING_DEFINED;
    assert DefinedBy(s, 1) == Defined(OPENED_A[A := Implicitly], ABC);
    assert DefinedBy(s, 2) == Defined(OPENED_A, A);
    assert DefinedBy(s, 3) == AfterKeyValue(Defined(OPENED_A, A), key, ScalarSyntax(1));
    hide DefinedBy;
    assert StatementAllowed(DefinedBy(s, 0), s[0]) && StatementAllowed(DefinedBy(s, 1), s[1])
      && StatementAllowed(DefinedBy(s, 2), s[2]);
    assert DocumentAllowed(s) <==> StatementAllowed(DefinedBy(s, 3), s[3]);
  }

  /** A table made by the dotted key does not keep the header from opening its parent; a number does. */
  lemma {:induction false} DottedThenHeaderIsAllowed()
    ensures WellKeyed(DottedThenHeader(["b", "x", "y"])) && DocumentAllowed(DottedThenHeader(["b", "x", "y"]))
    ensures WellKeyed(DottedThenHeader(["b", "x"])) && !DocumentAllowed(DottedThenHeader(["b", "x"]))
  {
    hide *;
    LongKey();
    ShortKey();
    FourAreAllowed(["b", "x", "y"]);
    FourAreAllowed(["b", "x"]);
    TablesOrNumber();
  }

  lemma {:induction false} TablesOrNumber()
    ensures HeaderFits(OPENED_A[ABX := ByDottedKey][ABXY := ByValue(ScalarSyntax(1))], ["a", "b"], false)
    ensures !HeaderFits(OPENED_A[ABX := ByValue(ScalarSyntax(1))], ["a", "b"], false)
  {
    hide HeaderFits;
    var short := OPENED_A[ABX := ByValue(ScalarSyntax(1))];
    LastHeader(OPENED_A[ABX := ByDottedKey][ABXY := ByValue(ScalarSyntax(1))]);
    LastHeader(short);
    assert AB <= ABX && ABX in short && !HoldsTables(short[ABX]);
  }
}
